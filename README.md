# Aider Smart Context: the context reconciliation engine, in Dafny

This project models the core of the VS Code extension "Aider Smart Context":
the `AiderSessionManager`, which tracks the files an Aider terminal session
should see, and the commands of `extension.ts` that feed it.

The manager holds four things:

- whether a session terminal exists;
- the tracked files, a JavaScript `Map` from absolute path to a `readOnly` flag, in insertion order;
- a dirty flag, meaning the store differs from what Aider was last told;
- the two editor listeners of the running session.

Its operations are add, drop and clear, the two auto-track listeners, session
start and end, and `syncContext`. A sync sends `/drop *`, then one `/add` line
with the writable paths, then one `/read` line with the read-only paths.

Layout, one module per file:

- `wrappers.dfy`: `Option`.
- `ordered_map.dfy`: `OrderedMap`, a value model of a JavaScript `Map`. `set` keeps an existing key's position and appends a new key; `delete` removes one key.
- `ignore_filter.dfy`: the call discipline of `isIgnored`. The gitignore matcher and `path.relative` come from the host, as functions.
- `context_store.dfy`: the store type and the batch upsert that `addFiles` performs, with the lemmas about it.
- `sync_protocol.dfy`: the lines a sync sends. It also gives Aider's reading of those lines, in two parts. The first parses a line back into a directive. The second applies directives to Aider's own context. The lemmas prove that a sync leaves Aider's context equal to the store.
- `session_manager.dfy`: the `SessionManager` class. Its fields are the ones the source mutates. Each method promises its whole new state in terms of the functions above.
- `directory_walk.dfy`: the recursive `walk` of `aider.addAllFromDirectory`, as a method with a loop and recursion. It is proved equal to a reference function, and that function is characterised by routes through the tree.
- `commands.dfy`: the bulk-add, read-only and writable add commands, and `aider.runCustomTask`.
- `scenarios.dfy`: four clients that use only the manager's contracts: two syncs in a row, ending a session twice, a silent add after a sync, and two user commands in a row.

These behaviours of the source are reproduced as written:

- The store iterates in `Map` insertion order, so the exact `/add` and `/read` lines are determined.
- The focus listener inserts the file straight into the store. It does not call `addFiles`, so the ignore rules are not consulted.
- `startSession` always performs the initial sync, so an empty store still sends `/drop *`.
- When there is no workspace folder, `startSession` still overwrites `_workspaceFolder` with `undefined` before it gives up.
- `sync` while inactive shows a warning and returns. It sends nothing.

These quirks are reproduced, not fixed. Paths are quoted without escaping: `SyncProtocol.QuotingIsAmbiguous` shows one path that renders exactly like two paths. The read-back lemmas therefore assume paths without a double quote.

## Model

| member | source | states |
|---|---|---|
| `OrderedMaps.OrderedMap.Set` | src/AiderSessionManager.ts:224 | `Map.set`: the key gets the value, every other key keeps its value, an existing key keeps its position, a new key goes last, and the order stays duplicate-free and equal to the key set |
| `OrderedMaps.OrderedMap.Delete` | src/AiderSessionManager.ts:241 | `Map.delete`: the key is gone, every other entry is kept, the order is the old order with that one position removed, and an absent key leaves the map as it was |
| `OrderedMaps.RemoveAt` | src/AiderSessionManager.ts:241 | removing one position of a duplicate-free key order loses exactly that key, keeps the order duplicate-free and shortens it by one |
| `OrderedMaps.Empty` | src/AiderSessionManager.ts:201 | `Map.clear`/`new Map()`: no key is stored and the size is 0 |
| `OrderedMaps.SizeZeroIffEmpty` | src/AiderSessionManager.ts:258 | `size > 0` exactly when some key is stored |
| `IgnoreFilter.Load` | src/AiderSessionManager.ts:75-86 | the rule set after a `.gitignore` read: the file's rules; when the read fails, a set that ignores nothing |
| `IgnoreFilter.IsIgnored` | src/AiderSessionManager.ts:88-93 | false with no workspace folder; false when the relative path is empty (the root itself); otherwise exactly the matcher's verdict on the root-relative path |
| `IgnoreFilter.RootNeverIgnored` | src/AiderSessionManager.ts:90-91 | the workspace root is never ignored, whatever the rules |
| `IgnoreFilter.FailedLoadIgnoresNothing` | src/AiderSessionManager.ts:79-85 | after a failed `.gitignore` read no path is ignored |
| `IgnoreFilter.Unignored` | src/AiderSessionManager.ts:216 | the filtered batch holds exactly the input paths that are not ignored, and no more paths than the input |
| `ContextStore.Upsert` | src/AiderSessionManager.ts:223-226 | one loop step of `addFiles` leaves the path tracked with the requested mode and the store well formed |
| `ContextStore.UpsertKeys` | src/AiderSessionManager.ts:224 | one step keeps the key order, or appends the path at the end |
| `ContextStore.UpsertAll` | src/AiderSessionManager.ts:222-227 | the loop over a batch keeps the store well formed: a duplicate-free key order with one flag per key |
| `ContextStore.UpsertBatch` | src/AiderSessionManager.ts:220-227 | the `addFiles` loop yields the batch upsert, and `changed` is true exactly when some path was absent or had the other mode, which is exactly when the store changed |
| `ContextStore.UpsertAllTracks` | src/AiderSessionManager.ts:222-227 | after the add loop every path of the batch is tracked with the requested mode |
| `ContextStore.UpsertAllFrame` | src/AiderSessionManager.ts:222-227 | a path outside the batch is tracked afterwards exactly when it was before, with the same mode |
| `ContextStore.UpsertAllFromEmpty` | src/AiderSessionManager.ts:222-227 | from the empty store a batch tracks exactly its own paths, each with the requested mode |
| `ContextStore.UpsertAllNeedsUpdate` | src/AiderSessionManager.ts:223 | after part of the batch, a path still needs an update exactly when it needed one at the start and was not yet in that part |
| `ContextStore.UpsertAllStep` | src/AiderSessionManager.ts:222-227 | one more loop iteration upserts the next path, and `changed` becomes true exactly when that path needs an update at that point |
| `ContextStore.UpsertAllChanges` | src/AiderSessionManager.ts:220-227 | the add loop changes the store exactly when some batch path was absent or had the other mode (the `changed` flag) |
| `ContextStore.UpsertAllKeepsOrder` | src/AiderSessionManager.ts:224 | existing entries keep their positions; entries that appear are batch paths, appended after them |
| `ContextStore.ModeOverwrite` | src/AiderSessionManager.ts:219-226 | adding a path writable puts it last (or keeps its place); adding it again read-only counts as a change, makes it read-only and keeps the key order |
| `SyncProtocol.JoinQuoted` | src/AiderSessionManager.ts:186 | the quoted argument is empty exactly when the path list is, so an `/add` or `/read` line always names a path |
| `SyncProtocol.KeysWithMode` | src/AiderSessionManager.ts:179-181 | the read-only selection holds exactly the stored keys whose flag matches |
| `SyncProtocol.Excluding` | src/AiderSessionManager.ts:182 | the filtered list holds exactly the files not excluded |
| `SyncProtocol.ExcludingReadOnly` | src/AiderSessionManager.ts:178-182 | removing the read-only files from the key list leaves exactly the writable keys, in order |
| `SyncProtocol.ReadOnlyFiles` | src/AiderSessionManager.ts:179-181 | holds exactly the tracked paths whose flag is read-only |
| `SyncProtocol.NormalFiles` | src/AiderSessionManager.ts:182 | holds exactly the tracked paths that are writable |
| `SyncProtocol.SyncLines` | src/AiderSessionManager.ts:176-191 | a sync sends one to three lines, the first being `/drop *` |
| `SyncProtocol.KeysWithModeInOrder` | src/AiderSessionManager.ts:178-181 | a selection of keys by mode lists them at strictly increasing store positions |
| `SyncProtocol.PartitionOfStore` | src/AiderSessionManager.ts:178-182 | the writable and read-only lists split the stored keys into two disjoint parts by flag |
| `SyncProtocol.PartitionInStoreOrder` | src/AiderSessionManager.ts:178-182 | both parts list their paths in store order |
| `SyncProtocol.RenderSyncOf` | src/AiderSessionManager.ts:176-192 | the sync lines are `/drop *`, then `/add` with the quoted writable paths if there are any, then `/read` with the quoted read-only paths if there are any |
| `SyncProtocol.SyncLinesSpelled` | src/AiderSessionManager.ts:176-192 | the sync lines of a store are `/drop *`, then `/add` with its writable part if non-empty, then `/read` with its read-only part if non-empty |
| `SyncProtocol.SyncShape` | src/AiderSessionManager.ts:175-192 | a sync sends one to three lines: the first is `/drop *`, an `/add` line follows exactly when writable paths exist, and a `/read` line comes last exactly when read-only paths exist |
| `SyncProtocol.SyncEmpty` | src/AiderSessionManager.ts:176 | an empty store syncs as the single line `/drop *` |
| `SyncProtocol.TwoFilesParts` | src/AiderSessionManager.ts:178-182 | in `{"/a.ts": writable, "/b.ts": read-only}` the read-only part is `["/b.ts"]` and the writable part is `["/a.ts"]` |
| `SyncProtocol.SyncTwoFiles` | src/AiderSessionManager.ts:175-192 | `{"/a.ts": writable, "/b.ts": read-only}` syncs as exactly `/drop *`, `/add "/a.ts"`, `/read "/b.ts"` |
| `SyncProtocol.ReplaySyncOf` | src/AiderSessionManager.ts:175-192 | whatever Aider's context was before, after the sync directives it maps exactly the listed paths: writable ones to writable and read-only ones to read-only |
| `SyncProtocol.SyncReproducesStore` | src/AiderSessionManager.ts:175-194 | replaying a sync against any Aider context gives exactly the synced store's path-to-flag map, whatever Aider held before |
| `SyncProtocol.CloseQuote` | src/AiderSessionManager.ts:186 | the index found is the first double quote at or after the start, or the end of the line |
| `SyncProtocol.CloseQuoteSkips` | src/AiderSessionManager.ts:186 | in a quoted path without inner quotes, the closing quote is found right after the path |
| `SyncProtocol.ParseHead` | src/AiderSessionManager.ts:186 | a line that starts with a quoted path without inner quotes reads back that path first, followed by whatever the rest after one space reads as |
| `SyncProtocol.ParseJoinQuoted` | src/AiderSessionManager.ts:186 | a joined, quoted, non-empty path list reads back as the same list when no path holds a double quote |
| `SyncProtocol.ParseRender` | src/AiderSessionManager.ts:186-191 | every directive reads back from its rendered line when no path holds a double quote |
| `SyncProtocol.SyncLinesReadBack` | src/AiderSessionManager.ts:176-191 | each line a sync sends reads back as the intended directive when no tracked path holds a double quote |
| `SyncProtocol.QuotingIsAmbiguous` | src/AiderSessionManager.ts:186 | quoting without escaping makes one path render exactly like two different paths |
| `Session.OpenFilePaths` | src/AiderSessionManager.ts:119-121 | the seed paths are exactly the fs paths of saved `file:` documents |
| `Session.SeedStore` | src/AiderSessionManager.ts:118-126 | with auto-add on, a new session tracks exactly the non-ignored fs paths of the open saved `file:` documents, all writable; with it off, nothing |
| `Session.AddNeverInsertsIgnored` | src/AiderSessionManager.ts:216-227 | an ignored path is tracked after an add exactly when it was tracked before: `addFiles` never inserts it |
| `Session.SessionManager.constructor` | src/AiderSessionManager.ts:10-29 | a fresh manager has no session, no tracked files, no listeners, no folder, a clean flag and an empty rule set |
| `Session.SessionManager.SetContextDirty` | src/AiderSessionManager.ts:31-36 | the dirty flag takes the given value and nothing else changes |
| `Session.SessionManager.IsIgnoredPath` | src/AiderSessionManager.ts:88-93 | the manager's `isIgnored`: false with no folder and for the root itself |
| `Session.SessionManager.IsSessionActive` | src/AiderSessionManager.ts:275-277 | active means the session's two listeners are held; inactive means nothing is tracked and nothing is dirty |
| `Session.SessionManager.LoadIgnoreRules` | src/AiderSessionManager.ts:75-86 | with a folder the rule set becomes the loaded one (or the empty set when the read fails); without a folder nothing changes |
| `Session.SessionManager.StartSession` | src/AiderSessionManager.ts:95-129 | while active, no state changes; with no folder, nothing starts; otherwise it sends the launch line, holds both listeners, tracks exactly the silently seeded files, sends the sync lines of that store (even when it is empty) and leaves the state clean and in sync; a call on a running session keeps the flag honest |
| `Session.SessionManager.RegisterSessionListeners` | src/AiderSessionManager.ts:138-167 | the session holds exactly its two listeners afterwards |
| `Session.SessionManager.OnDidChangeActiveTextEditor` | src/AiderSessionManager.ts:139-152 | while subscribed, a focused untracked saved file is appended as writable without consulting the ignore rules, and the state turns dirty; otherwise nothing changes |
| `Session.SessionManager.OnDidCloseTextDocument` | src/AiderSessionManager.ts:154-164 | while subscribed and with auto-drop on, closing a tracked saved file removes exactly that entry and turns the state dirty; otherwise nothing changes |
| `Session.SessionManager.SyncContext` | src/AiderSessionManager.ts:169-196 | inactive: sends nothing; active: sends exactly the sync lines of the store and records that store as what Aider holds; the store is unchanged and the state is clean and in sync |
| `Session.SessionManager.EndSession` | src/AiderSessionManager.ts:198-211 | from any state: no session, empty store, clean flag, no listeners, and no line sent; the flag stays honest |
| `Session.SessionManager.AddFiles` | src/AiderSessionManager.ts:213-236 | while inactive the store is untouched; while active it becomes the batch upsert of exactly the non-ignored paths with the requested mode (default writable); the state turns dirty exactly when the call is not silent and some non-ignored path was absent or had the other mode; terminal, listeners, folder and rules are unchanged; a non-silent add keeps the flag honest (clean only while the store is what was last synced) |
| `Session.SessionManager.DropFile` | src/AiderSessionManager.ts:238-246 | active and tracked: exactly that entry is removed and the state turns dirty; otherwise a no-op |
| `Session.SessionManager.ListFiles` | src/AiderSessionManager.ts:249-253 | sends `/ls` exactly when a session is active; nothing else changes |
| `Session.SessionManager.ClearContext` | src/AiderSessionManager.ts:255-264 | active and non-empty: the store empties and the state turns dirty; otherwise a no-op |
| `Session.CleanSessionMatchesAssistant` | src/AiderSessionManager.ts:169-194 | in a valid, honest, active and clean session, replaying the last sync against any Aider context yields exactly the tracked store |
| `Session.SessionManager.SendCommand` | src/AiderSessionManager.ts:266-273 | the command is sent verbatim exactly when a session is active; nothing else changes |
| `DirectoryWalk.JoinPath` | src/extension.ts:124 | a joined path starts with the directory followed by a slash |
| `DirectoryWalk.Skipped` | src/extension.ts:126-128 | the walk's test agrees with `isIgnored` on every path below the root, which are the only paths the walk tests |
| `DirectoryWalk.Collect` | src/extension.ts:123-137 | every path collected for a directory's entries lies beneath that directory |
| `DirectoryWalk.CollectEntry` | src/extension.ts:124-136 | every path collected for one entry lies beneath the directory that holds it |
| `DirectoryWalk.Walk` | src/extension.ts:121-138 | the files array after the walk is the array before it followed by exactly the reference collection of the directory |
| `DirectoryWalk.CollectPrefix` | src/extension.ts:123 | what one entry contributes appears in the directory's collection |
| `DirectoryWalk.ReachedIsCollected` | src/extension.ts:123-137 | every file reached through unskipped directories is collected |
| `DirectoryWalk.CollectedIsReached` | src/extension.ts:123-137 | every collected path is reached by a route of unskipped entries: Directory entries above, a File entry at the end |
| `DirectoryWalk.EntryCollectedIsReached` | src/extension.ts:126-137 | the same, for what one entry contributes |
| `DirectoryWalk.CollectedIffReached` | src/extension.ts:121-138 | a path is collected exactly when such a route reaches it |
| `DirectoryWalk.SkippedPrunesSubtree` | src/extension.ts:126-130 | a route through a skipped entry reaches nothing, so no file beneath an ignored directory is collected |
| `DirectoryWalk.SymbolicLinksNotFollowed` | src/extension.ts:132-136 | an entry whose type carries the SymbolicLink bit as well as File or Directory is neither collected nor entered |
| `DirectoryWalk.NoRulesReachEveryFile` | src/extension.ts:109-116 | with the empty rule set, every File reached through Directory entries is reachable by the walk |
| `DirectoryWalk.FailedReadCollectsEverything` | src/extension.ts:109-140 | when the `.gitignore` read fails, every such file is collected |
| `Commands.AddAllFromDirectory` | src/extension.ts:82-146 | a cancelled dialog or a folder outside every workspace adds nothing; otherwise it passes exactly the walk's collection to `addFiles` as writable and not silent; the last synced store is kept and the flag stays honest |
| `Commands.AddActiveFileAsReadOnly` | src/extension.ts:148-153 | with an active editor, its file goes to `addFiles` read-only; without one, nothing changes; the last synced store is kept and the flag stays honest |
| `Commands.ExplorerPaths` | src/extension.ts:156-157 | the batch is the selection, or the single clicked item when there is no selection, without empty paths |
| `Commands.NonEmptyPaths` | src/extension.ts:157 | `filter(p => p)` keeps exactly the non-empty paths |
| `Commands.AddFromExplorer` | src/extension.ts:155-169 | the explorer batch goes to `addFiles` with the explicit mode, and only when it is non-empty; the last synced store is kept and the flag stays honest |
| `Commands.TaskOutcomeOf` | src/extension.ts:181-209 | no session wins over everything; then no folder; then a missing task file offers the template and an unreadable one is an error, exactly; a task is sent only after all checks pass and a pick |
| `Commands.MalformedTasksRejected` | src/extension.ts:198-201 | a task file that is not an array, or is empty, is an error and never sends a command |
| `Commands.SentTaskIsPicked` | src/extension.ts:179-210 | a command is sent exactly when the session is active, a folder is open, the task array is non-empty and a task was picked; it is that task's command verbatim |
| `Commands.RunCustomTask` | src/extension.ts:179-211 | the outcome follows the checks in the source order, and the only line sent is the picked command; the last synced store is kept and the flag stays honest |
| `Scenarios.SyncTwice` | src/AiderSessionManager.ts:169-196 | two syncs in a row append exactly two identical batches to the log (nothing while inactive, the store's sync lines while active), leave the store unchanged and leave the state clean |
| `Scenarios.SilentAddAfterSync` | src/AiderSessionManager.ts:229-233 | a silent add right after a sync tracks a path the last sync did not send, yet the flag stays clear |
| `Scenarios.CommandsKeepFlagHonest` | src/extension.ts:82-153 | across the bulk-add and read-only add commands the flag stays honest, so while it is clear replaying the last sync against any Aider context still yields exactly the tracked store |
| `Scenarios.TeardownTwice` | src/AiderSessionManager.ts:198-211 | ending a session with three tracked files twice leaves no session, no files, a clean flag and no listeners |

## Left out

- User interface: the status bar in `updateStatusBar`, the `setContext` calls, messages, quick picks, the open dialog and the tree view. `src/AiderContextViewProvider.ts` is not part of this model, nor are `setViewProvider`, `getContextFiles` and the view refreshes.
- `getInstance`: the singleton accessor. The model works with one explicitly constructed `SessionManager`.
- Terminal transport: `createTerminal`, `show` and `dispose`. The terminal is a flag plus a log of sent lines.
- `stopSession` only disposes the terminal. Its effect arrives through the terminal-close notification, which is `EndSession` here. The identity check `closedTerminal === this._terminal` is not modelled.
- `_isStarting` is never set to true in the source, so the guard in the focus listener never fires. The field is omitted.
- Session.SessionManager.AddFiles: the flag is honest only after a non-silent add. A silent add on a running session leaves the flag clear while Aider lacks the new files, as `Scenarios.SilentAddAfterSync` shows; in the source only `startSession` adds silently, and its initial sync follows.
- Session.SessionManager.StartSession: treats `loadIgnoreRules` as finishing before the seeding. In the source the call is not awaited, so the seed add runs while the `.gitignore` read is pending and is filtered by the freshly reset, empty rule set.
- Gitignore pattern semantics and `path.relative` are host functions (`Filter`, `Folder.relative`).
- IgnoreFilter.IsIgnored: the `ignore` package throws a `RangeError` on a path that is not relative, such as a file outside the root, whatever its rules. That exception is not modelled; the model returns the filter's verdict instead. In the source the exception escapes the filter in `addFiles` (src/AiderSessionManager.ts:216) before the loop runs, so a batch holding any path outside the folder adds nothing at all. In `startSession` (line 124), the same happens with an open file outside the folder, even under the still-empty rule set. The call then aborts after the terminal and the listeners exist and before the initial sync at line 127. The model instead adds the batch's other paths and performs the sync.
- Paths are posix. `Uri.joinPath` is a `/` join, and a URI's `path` and `fsPath` are taken to be the same string.
- File-system input arrives as parameters: the `.gitignore` contents, `readDirectory` results, the task file read and `JSON.parse`. A failing `readDirectory` inside the walk is not modelled.
- The `writeFileSync` scaffold of a missing task file is left out. The model reports that outcome as `OfferTemplate`.
- Commands.RunCustomTask: elements of the task array are taken to be records with a string `command`. The source casts the parsed value without checking its elements.
- Commands.AddFromExplorer: the source throws a `TypeError` when it is invoked with no URI at all. This is not modelled; the clicked item is always a path.
- Configuration values (`executablePath`, default `aider`; `autoAddOnOpen`; `autoDropOnClose`) are parameters.
- The commented-out listeners in `src/extension.ts` are not modelled.
