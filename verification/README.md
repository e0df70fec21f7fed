# Verified models of the course repository's protocols and stores

This project models the parts of the repository that carry a correctness argument, and proves what they are
for:

- **Linearizability checker** (`lab4/src/linearizability`): modules `History`, `Bitset`, `LinkedHistory`,
  `Search`, `Checker`, `Entries`, `Ties`, `Events`, `KvModel`, `KvReads`, `Race`, `CheckOperations`. The specification is the
  existence of a legal order that respects real time. The code is the backtracking search over a doubly
  linked list with a bitset, a hash-bucketed table and a call stack; it is modelled on the heap, pointer by
  pointer.
- **gDocs backend** (`gdocs-k-on/code/client`): `Text`, `UndoLog`, `UndoRuns`, `LogText`, `Locks`, `DocServer`
  for the shared undo log and the cell locks, and `Catalogue` for the configuration file and its two in-memory maps. Files of the store
  below are flat texts here, and each handler is one step.
- **Sliding-window protocol** (`lab1/README.md`): `SlidingWindow` is the system of sender, receiver, timer and
  a network that loses, duplicates and reorders; `Endpoints` is the code of the two ends.
- **MapReduce** (`lab4/src/mapreduce`): `Sorting`, `MapReduce`, `Pipeline`, `Retries` for the data path and `Schedule` for
  the scheduler with its goroutines, the forwarding of registrations and the workers' counters.
- **GFS** (`gdocs-k-on/code`): `GfsFile` for striping over chunks, `MasterMeta` and `Masters` for the master's
  chunk map, load counters, choice of servers and follower copies.

`Common` holds what several modules use.

`dafny verify dfyconfig.toml` checks everything. Go's library sorts are unstable, so they appear only through
their contract (sorted, same elements). Map iteration order is an arbitrary choice. Dafny's unbounded integers
stand for Go's machine integers except where a wrap decides something (`GfsFile.LastByte`).

## Where the code falls short of what it promises

Each of these has a lemma that says exactly when the code does meet the promise, and an input for which it
does not:

- Operations whose times touch can be ordered wrongly by the unstable sort: `Entries.VerdictOverSorts` for one
  model, `Ties.TiesExactly` over all models, with `CheckOperations.TieExample`. An operation whose call and return
  have the same time may even be entered backwards: `Ties.AlwaysPlaced`.
- A log line is read back wrongly when a field holds the marker word of a later field: `LogText.ParseUpdateLine`,
  `LogText.ParseRollbackLine`. `LogText.MisreadExample` shows a cell with "reply to: Bob" that an undo turns into
  "reply     Bob".
- An undo restores the cell only if it held nothing but spaces from its gap to the end of the value that is undone:
  `UndoLog.RestoreExact`, with `UndoLog.GapValueLost`.
- A value of more than 75 bytes takes the gap out of its cell, and every later update of the cell crashes:
  `DocServer.StuckExactly`.
- Opening a document shows locks of other documents, or at wrong places, or panics, when a name has a dash, starts
  another name or is five or more longer than another: `Locks.LocksShownExactly`, with `Locks.DashMisplaces` and
  `Locks.OtherMisleads`. A blank last cell is sent as spaces while other blank cells are sent empty:
  `DocServer.Server.HandleOpen`.
- A name that occurs earlier in the configuration text has another record's valid bit flipped, or another
  stretch of the text cut out: `Catalogue.SetBitExact`, `Catalogue.NestedName`, `Catalogue.CutExact`,
  `Catalogue.CutNested`.
- The receiver leaves deliverable messages behind, which `lab1/README.md:198` reports without an explanation:
  `SlidingWindow.LagsExactly` gives the reason, `SlidingWindow.FlushNeeded` a run.
- An empty reduce partition emits a record for the empty key: `Pipeline.PipelineExact`, `Pipeline.StrayExample`.
- A map task whose reply is lost is run again and duplicates its values: `Retries.RetriedExact`,
  `Retries.ScheduledExact`, with `Retries.MapTwice`.
- A reduce phase with more tasks than input files panics: `Schedule.PanicsExactly`, which makes every such job an
  input.
- A call that fails while the worker still runs its task, or a worker that registers twice, leads to two tasks at
  once: `Schedule.SafeExactly`, with `Schedule.CutRun` and `Schedule.DoubleRegistration`.
- `read` returns too much once a range reaches the end of its second chunk: `GfsFile.ReadExact`,
  `GfsFile.TwoChunksFail`.
- Adding a chunk that exists counts its replicas again: `MasterMeta.AddChunkCounts`, `MasterMeta.AddedTwice`.
- A version report for a file that was deleted brings the file back without locations, so its name cannot be
  created again: `MasterMeta.TakenExactly`, with `MasterMeta.ReportRevives`. The counters survive this
  (`MasterMeta.VersionedCounts`).

## Model

| member | source | states |
|---|---|---|
| `Checker.CheckSingle` | lab4/src/linearizability/linearizability.go:167-214 | terminates on every history; true means that a legal order respecting real time exists; false means that none exists unless the last load of the kill flag that the loop made found it set, and earlier loads did not; after a false answer without kill every pointer of the list is restored |
| `Checker.Turn` | lab4/src/linearizability/linearizability.go:180-211 | one turn keeps the search invariant and either stores a new pair, shrinks the stack or advances the cursor; it fails only when no order exists |
| `Checker.TryCall` | lab4/src/linearizability/linearizability.go:180-199 | a call is linearized only if the model steps and its pair is new, and then the table strictly grows; otherwise the cursor gets closer to the end |
| `Checker.Pop` | lab4/src/linearizability/linearizability.go:204-210 | giving up the last operation restores list, bits and state of the level below and keeps the table |
| `Checker.Begin` | lab4/src/linearizability/linearizability.go:168-175 | the empty bitset, the initial state and the head node establish the search invariant |
| `Checker.CacheContains` | lab4/src/linearizability/linearizability.go:133-140 | found exactly when the pair of linearized set and state was stored, for any hash function |
| `Checker.NotInBucket` | lab4/src/linearizability/linearizability.go:134-139 | a pair missing from the bucket of its hash is in no bucket |
| `Checker.StoredAppend` | lab4/src/linearizability/linearizability.go:187-188 | appending an entry to its bucket adds exactly its pair to what the table stores |
| `Checker.AdvanceSearch` | lab4/src/linearizability/linearizability.go:186-199 | skipping a call whose pair is already stored loses no order: stored pairs off the stack were fully explored |
| `Checker.PushSearch` | lab4/src/linearizability/linearizability.go:187-193 | lifting a call keeps the invariant of path, table and explored calls |
| `Checker.PopSearch` | lab4/src/linearizability/linearizability.go:204-210 | a return under the cursor proves the current pair hopeless, so the level below goes on behind its call |
| `Checker.SearchFails` | lab4/src/linearizability/linearizability.go:201-203 | an empty stack at a return means that the history is not linearizable |
| `Checker.SearchSucceeds` | lab4/src/linearizability/linearizability.go:176-213 | an empty list means that the stack is a legal order of all operations |
| `Checker.AtCursor` | lab4/src/linearizability/linearizability.go:176-180 | the cursor is never nil while the list is not empty |
| `Checker.LiftCall` | lab4/src/linearizability/linearizability.go:191-193 | a lift keeps the stale pointers of everything lifted before |
| `Checker.UnliftCall` | lab4/src/linearizability/linearizability.go:209-210 | an unlift restores the list as it was before the matching lift and keeps the pointers of the others |
| `Search.MoveKeepsList` | lab4/src/linearizability/linearizability.go:191-193 | after a lift the list is the history minus the calls and returns of the linearized ids |
| `Search.ReturnMeansStuck` | lab4/src/linearizability/linearizability.go:200-203 | when the cursor reaches a return, every call in front of it leads nowhere and no later call can come first |
| `Search.FirstIsTried` | lab4/src/linearizability/linearizability.go:180-199 | the first operation of any completing order is a call in front of the first return |
| `Search.PathFinishes` | lab4/src/linearizability/linearizability.go:189-192 | a complete path of lifts is a legal order that respects real time |
| `Search.EndInUniverse` | lab4/src/linearizability/linearizability.go:184-188 | every pair the search can store lies in one finite set |
| `Search.MemoPop` | lab4/src/linearizability/linearizability.go:133-140 | a pair that leaves the stack is hopeless, so the table still holds only stacked or hopeless pairs |
| `LinkedHistory.Lift` | lab4/src/linearizability/linearizability.go:147-155 | the list without the call and its return is doubly linked, also when the two are neighbours |
| `LinkedHistory.Unlift` | lab4/src/linearizability/linearizability.go:157-165 | restores every pointer of the list that the lift was applied to |
| `LinkedHistory.InsertBefore` | lab4/src/linearizability/linearizability.go:59-70 | inserting in front of a node keeps the list doubly linked |
| `LinkedHistory.Length` | lab4/src/linearizability/linearizability.go:72-79 | the number of nodes |
| `LinkedHistory.MakeLinkedEntries` | lab4/src/linearizability/linearizability.go:109-126 | a fresh doubly linked list with the entries in order, each call pointing to its own return |
| `LinkedHistory.AddEntry` | lab4/src/linearizability/linearizability.go:112-124 | one turn of the construction from the end |
| `Bitset.NewBitset` | lab4/src/linearizability/bitset.go:8-15 | the least number of words that holds the bits, and no member |
| `Bitset.Clone` | lab4/src/linearizability/bitset.go:17-21 | a fresh copy with the same words |
| `Bitset.Set` | lab4/src/linearizability/bitset.go:27-31 | adds one member to the set |
| `Bitset.Clear` | lab4/src/linearizability/bitset.go:33-37 | removes one member from the set |
| `Bitset.Equals` | lab4/src/linearizability/bitset.go:64-74 | equal exactly when length and set of members are equal |
| `Bitset.BitsExtensional` | lab4/src/linearizability/bitset.go:64-74 | words of one length with the same members are the same words |
| `Bitset.WriteBit` | lab4/src/linearizability/bitset.go:23-37 | one written bit changes one member, across word boundaries |
| `Entries.MakeEntries` | lab4/src/linearizability/linearizability.go:37-49 | the entries come in time order, two per operation, and give each operation its places |
| `Entries.PlacesSound` | lab4/src/linearizability/linearizability.go:33-49 | an order found on places is an order for the times, whatever the sort did with ties |
| `Entries.PlacesComplete` | lab4/src/linearizability/linearizability.go:33-49 | an order that also separates touching operations is found, whatever the sort did |
| `Entries.WithoutTies` | lab4/src/linearizability/linearizability.go:33-35 | without equal times the two readings of real time agree |
| `Entries.VerdictOverSorts` | lab4/src/linearizability/linearizability.go:33-49 | every outcome of the sort gives the right verdict if and only if linearizability does not hinge on touching operations |
| `Ties.TiesExactly` | lab4/src/linearizability/linearizability.go:33-49 | for operations that differ in their values, every outcome of the sort gives the right verdict for every model if and only if no operation returns at the time another is called |
| `Ties.TieMatters` | lab4/src/linearizability/linearizability.go:33-49 | each tie has a model under which the history is linearizable but not when touching operations count as ordered |
| `Ties.AlwaysPlaced` | lab4/src/linearizability/linearizability.go:37-49 | every outcome of the sort keeps calls in front of their returns if and only if each operation is called strictly before it returns |
| `CheckOperations.TieExample` | lab4/src/linearizability/linearizability.go:47 | a linearizable history for which some outcome of the sort is judged not linearizable |
| `KvModel.PartitionExact` | lab4/src/linearizability/models.go:17-48 | a history over the whole store is linearizable if and only if each key's part is linearizable for one register |
| `KvReads.StoreExactly` | lab4/src/linearizability/models.go:34-48 | the store accepts an order if and only if every get in it returns the value of the last put of its key, or nothing, followed by the values appended since, in order |
| `KvReads.RegisterExactly` | lab4/src/linearizability/models.go:34-48 | the same for the register of one key |
| `KvReads.StoreMeaning` | lab4/src/linearizability/models.go:29-48 | a history is linearizable for the store if and only if some order that respects real time explains every get in this way |
| `KvModel.MergeLanes` | lab4/src/linearizability/model.go:24-27 | legal orders per key merge into one legal order that respects real time |
| `KvModel.OnlyLegal` | lab4/src/linearizability/models.go:29-48 | a legal order of the store restricted to a key is legal for the register |
| `KvModel.Partition` | lab4/src/linearizability/models.go:17-28 | non-empty parts; every operation is in one, and each part is the history restricted to the key of its operations |
| `KvModel.GroupByKey` | lab4/src/linearizability/models.go:18-22 | the map holds for each key the restriction of the history |
| `Race.CollectsAll` | lab4/src/linearizability/linearizability.go:251-269 | for every arrival order: without a timeout the answer is true exactly when every part is linearizable, a false answer always comes from a part that is not, and exactly then the kill flag is set |
| `Race.LoopEndsOrSteps` | lab4/src/linearizability/linearizability.go:251-268 | with a part the loop is never stuck before it ends; with no part and no timeout it never ends |
| `CheckOperations.CheckPart` | lab4/src/linearizability/linearizability.go:241-246 | sorting, linking and searching one part decides it up to ties and the kill flag |
| `CheckOperations.CheckParts` | lab4/src/linearizability/linearizability.go:229-270 | true means that every part is linearizable, false that one is not |
| `CheckOperations.ConcurrentCheck` | lab4/src/linearizability/linearizability.go:241-269 | for every interleaving of searches, kill flag, timeout and collection: false means that a part has no order, true without a timeout that every part has one |
| `CheckOperations.ConcurrentKv` | lab4/src/linearizability/linearizability.go:235-270 | without ties and timeout, the concurrent check of a key-value history answers exactly whether some order that respects real time explains every get by the last put and the appends since |
| `CheckOperations.CheckKv` | lab4/src/linearizability/linearizability.go:229-231 | the check of a key-value history decides whether some order that respects real time explains every get by the last put and the appends since |
| `Events.Renumber` | lab4/src/linearizability/linearizability.go:81-95 | kinds and values stay, and each identifier becomes its rank of first appearance |
| `Events.ConvertEntries` | lab4/src/linearizability/linearizability.go:97-107 | one entry per event with time -1 |
| `Events.RenumberedPlaces` | lab4/src/linearizability/linearizability.go:81-107 | renumbered paired events place the recorded operations |
| `Events.CheckEvents` | lab4/src/linearizability/linearizability.go:272-313 | true exactly when the recorded operations are linearizable |
| `Text.IndexIs` | gdocs-k-on/code/client/handlers_ws.go:304 | the index is the first occurrence, and -1 means none |
| `Text.AtoiNumExtend` | gdocs-k-on/code/client/util_ws.go:18-33 | a number that fits its field reads back |
| `Text.AtoiCut` | gdocs-k-on/code/client/util_ws.go:18-33 | any number reads back modulo the power of ten of its field |
| `Text.AtoiMalformed` | gdocs-k-on/code/master/rpcToChunkServer.go:159 | a text with a character that is no digit reads as zero |
| `Text.NumExtendLoop` | gdocs-k-on/code/client/util_ws.go:18-33 | the loop yields exactly the wanted number of characters, padded in front or cut to the last digits |
| `Text.GetStr` | gdocs-k-on/code/client/util_ws.go:8-15 | a run of spaces |
| `Text.SplitJoin` | gdocs-k-on/code/client/handlers_ws.go:742-751 | splitting a log at its tabs gives its lines back and one empty piece |
| `UndoLog.ScanFindsStack` | gdocs-k-on/code/client/handlers_ws.go:764-841 | the backward scan with a skip counter finds the element of the replayed undo stack that lies that deep, and nothing exactly when there is none |
| `UndoLog.OldValueExactly` | gdocs-k-on/code/client/handlers_ws.go:304-311 | the logged old value is what stands before the first gap, a space if nothing does, and none exactly when there is no gap |
| `UndoLog.OverlayCanonical` | gdocs-k-on/code/client/handlers_ws.go:304-323 | an update keeps the form of a cell: a value, then spaces |
| `UndoLog.RestoreExact` | gdocs-k-on/code/client/handlers_ws.go:302-323 | undoing an update restores the cell byte for byte if and only if the cell is blank from its gap to the end of the new value |
| `UndoLog.RestoreCanonical` | gdocs-k-on/code/client/handlers_ws.go:891-896 | in a cell of the usual form the undo restores it byte for byte |
| `UndoLog.GapValueLost` | gdocs-k-on/code/client/handlers_ws.go:304-323 | a value with a gap of its own is not restored once a longer value was written over it |
| `UndoLog.UpdateKeeps` | gdocs-k-on/code/client/handlers_ws.go:292-361 | an update keeps every user's stack undoable in every file |
| `UndoLog.RollbackKeeps` | gdocs-k-on/code/client/handlers_ws.go:737-916 | a rollback without conflict finds the cell as its target left it, writes back what was there before, and keeps all other stacks undoable |
| `UndoLog.OtherKeeps` | gdocs-k-on/code/client/handlers_ws.go:599-602 | log lines of other requests change nothing for undo |
| `UndoRuns.RunConsistent` | gdocs-k-on/code/client/handlers_ws.go:292-323 | in every run of updates, rollbacks and other requests, log, cells and what updates found and left fit together |
| `UndoRuns.SnapsTrue` | gdocs-k-on/code/client/handlers_ws.go:302-323 | each logged update comes from one step of the run, and its snapshot is what the cell held just before and just after that step |
| `UndoRuns.UndoRestores` | gdocs-k-on/code/client/handlers_ws.go:737-896 | in every run a rollback without conflict finds the cell as its target step left it, puts back what it held before that step, and changes no other cell |
| `LogText.ParseUpdateLine` | gdocs-k-on/code/client/handlers_ws.go:769-805 | the line an update logs is parsed back to its user, place, old and new value and file if and only if no field holds the marker word of a later field |
| `LogText.ParseRollbackLine` | gdocs-k-on/code/client/handlers_ws.go:825-832 | the line a rollback logs is parsed back to its user and file if and only if the user's name does not hold the file's marker word |
| `LogText.MisreadOld` | gdocs-k-on/code/client/handlers_ws.go:777-794 | what is read for an old value with "to:" in it: a cut old value and a new value that took the rest, or a crash when it starts with the word |
| `LogText.MisreadExample` | gdocs-k-on/code/client/handlers_ws.go:774-794 | a cell, an update and what its undo leaves instead of the cell's content |
| `DocServer.Server.HandleUpdate` | gdocs-k-on/code/client/handlers_ws.go:292-362 | crashes exactly when the cell has no gap; otherwise the cell starts with the value, cut to 80 bytes, and keeps its rest, no other cell changes, old and new value are logged, the lock of that cell is freed, and the invariant is kept for valid values |
| `DocServer.Server.HandleRollBack` | gdocs-k-on/code/client/handlers_ws.go:737-917 | which of the five outcomes occurs, each by an exact condition; it is refused as locked exactly when that cell was taken by an edit and not freed by an update since; a restore changes one cell to what it held before the top of the user's undo stack |
| `DocServer.Server.HandleEdit` | gdocs-k-on/code/client/handlers_ws.go:469-513 | takes the lock of that cell for the user exactly when the lock service grants it, and otherwise names its holder |
| `DocServer.Server.HandleOpen` | gdocs-k-on/code/client/handlers_ws.go:46-136 | sends each cell at its place row by row, blank ones empty except the last, and, if every lock is shown right, exactly the held locks of the document with place and owner |
| `DocServer.OpenCells` | gdocs-k-on/code/client/handlers_ws.go:55-84 | cuts a text of any length into cells and fills up with spaces |
| `DocServer.StuckExactly` | gdocs-k-on/code/client/handlers_ws.go:302-318 | an update leaves a cell that can never be updated again if and only if the value has more than 75 bytes and no gap with the blanks behind it |
| `Locks.LockParses` | gdocs-k-on/code/client/handlers_ws.go:327 | the last two dashes of a lock's name give back document, row and column, whatever the document is called |
| `Locks.LockIsCell` | gdocs-k-on/code/client/handlers_ws.go:879 | two cells have the same lock if and only if they are the same cell |
| `Locks.TakeKeeps` | gdocs-k-on/code/client/handlers_ws.go:484 | storing the lock makes the user the holder of that cell and changes no other |
| `Locks.FreeKeeps` | gdocs-k-on/code/client/handlers_ws.go:331 | removing the lock frees that cell and no other |
| `Locks.HeldExactly` | gdocs-k-on/code/client/handlers_ws.go:477-484 | a user holds a cell if and only if taking it is the last thing that happened to the cell |
| `Locks.ReportLocks` | gdocs-k-on/code/client/handlers_ws.go:112-126 | panics by an exact condition; otherwise reports exactly the locks whose names start with the document, in any order of the map |
| `Locks.LocksShownExactly` | gdocs-k-on/code/client/handlers_ws.go:113-125 | every lock is always shown right for a set of documents if and only if no name has a dash, none starts another and none is five or more longer than another |
| `Locks.DashMisplaces` | gdocs-k-on/code/client/handlers_ws.go:118-122 | a document with a dash in its name shows one of two of its locks at a wrong place |
| `Locks.OtherMisleads` | gdocs-k-on/code/client/handlers_ws.go:114-117 | a document whose name starts another one shows its locks, and one with a much longer name panics |
| `DocServer.Server.Restore` | gdocs-k-on/code/client/handlers_ws.go:891-916 | writes the padded old value and logs the rollback, which restores the target's cell |
| `DocServer.Server.ReadLog` | gdocs-k-on/code/client/handlers_ws.go:739-744 | reads back every line that was logged, in order |
| `DocServer.Server.WriteLog` | gdocs-k-on/code/client/handlers_ws.go:16-22 | appends one line behind the stored length and raises it; no document changes |
| `DocServer.Server.LogOther` | gdocs-k-on/code/client/handlers_ws.go:599-602 | a line with another head keeps the invariant |
| `DocServer.Server.CreateDocument` | gdocs-k-on/code/client/handlers_ws.go:152-169 | a new document is a grid of blank cells; existing ones are left alone |
| `DocServer.FindTarget` | gdocs-k-on/code/client/handlers_ws.go:754-841 | the loop over the lines finds the scan's target and collects exactly the places that other users changed in the file since |
| `DocServer.CollectedConflict` | gdocs-k-on/code/client/handlers_ws.go:817-873 | the collected places contain the target's place exactly when another user updated the same cell later |
| `DocServer.FindPlace` | gdocs-k-on/code/client/handlers_ws.go:862-873 | whether a place was collected |
| `Catalogue.SetBitExact` | gdocs-k-on/code/client/handlers_ws.go:516-532 | changing a valid bit yields the text of the changed catalogue if and only if the first occurrence of the name is its own name field |
| `Catalogue.NestedName` | gdocs-k-on/code/client/handlers_ws.go:527-531 | a name contained in an earlier file's name can never be trashed or recovered in the file |
| `Catalogue.Startup` | gdocs-k-on/code/client/webserver.go:237-272 | parsing the stored catalogue yields exactly the live files and the trashed files with their sizes |
| `Catalogue.AgreesOnce` | gdocs-k-on/code/client/webserver.go:265-271 | at most one map agrees with the records |
| `Catalogue.CreateText` | gdocs-k-on/code/client/handlers_ws.go:174-195 | the three writes of a creation yield the text of the catalogue with the new record |
| `Catalogue.RemoveText` | gdocs-k-on/code/client/handlers_ws.go:671-690 | the cut text is the text of the catalogue without the record |
| `Catalogue.CutExact` | gdocs-k-on/code/client/handlers_ws.go:671-690 | the cut panics exactly when the name first occurs before the first name field; otherwise it removes the record if and only if the text between the first occurrence and the record's name repeats at the record's length |
| `Catalogue.CutNested` | gdocs-k-on/code/client/handlers_ws.go:686-690 | a catalogue of two files for which the cut writes a wrong text |
| `Catalogue.Backend.constructor` | gdocs-k-on/code/client/webserver.go:226-284 | a first start stores the empty catalogue beside the log, so neither name can be created |
| `Catalogue.Backend.HandleCreate` | gdocs-k-on/code/client/handlers_ws.go:140-195 | recovers, refuses or creates, each by an exact condition; only a created name becomes known to the file system; file and maps still agree |
| `Catalogue.Backend.MoveToTrash` | gdocs-k-on/code/client/handlers_ws.go:539-566 | moves the name from one map to the other unless it is open, and file and maps still agree |
| `Catalogue.Backend.RecoverFile` | gdocs-k-on/code/client/handlers_ws.go:610-617 | moves the name back, and file and maps still agree |
| `Catalogue.Backend.ClearTrash` | gdocs-k-on/code/client/handlers_ws.go:658-694 | removes a trashed name and its record, refuses others, and file and maps still agree |
| `Catalogue.Backend.CutRecord` | gdocs-k-on/code/client/handlers_ws.go:671-694 | the rewritten file stores the catalogue without the record |
| `Catalogue.Backend.ChangeValidBit` | gdocs-k-on/code/client/handlers_ws.go:516-532 | the file stores the catalogue with one bit changed |
| `Catalogue.Backend.Restart` | gdocs-k-on/code/client/webserver.go:233-273 | after any sequence of requests a restart rebuilds both maps, and the stored counts match the records |
| `SlidingWindow.RunKeeps` | lab1/README.md:72-212 | the invariant of sender, network and receiver holds after every run, whatever is lost, duplicated or reordered |
| `SlidingWindow.DeliversInOrder` | lab1/README.md:90-105 | the receiver has always handed up exactly the first payloads, in order and once each, and marks nothing above them as delivered |
| `SlidingWindow.SenderBooks` | lab1/README.md:73-188 | every issued number is in exactly one of acknowledged, window and queue; free places and window make ten; a non-empty queue means a full window; the timer runs exactly when the window is not empty, and then there is a packet to resend |
| `SlidingWindow.SentExactly` | lab1/README.md:73-136 | in every reachable state the packets put on the network are exactly those that were issued and are not in the queue, with their payloads, so every packet in the window was sent; and exactly the numbers that arrived were acknowledged |
| `SlidingWindow.ResendsLowest` | lab1/README.md:180-189 | in every reachable state a timeout sends exactly the packet with the lowest number that is not acknowledged |
| `SlidingWindow.StartsExactly` | lab1/README.md:148-189 | the timer is started anew exactly when a payload comes while nothing is open, when the lowest open number is acknowledged, and when it runs out |
| `SlidingWindow.EverythingDelivered` | lab1/README.md:195-212 | once window and queue are empty, the final flush has handed up every payload |
| `SlidingWindow.CanDeliver` | lab1/README.md:112-212 | from every reachable state with all packets and acknowledgements on the network removed, some continuation without new payloads empties window and queue, after which the flush has handed up every payload; the same steps are possible without the removal |
| `SlidingWindow.FlushNeeded` | lab1/README.md:198 | a run in which everything was received and acknowledged but not handed up |
| `SlidingWindow.LagsExactly` | lab1/README.md:95-105 | a packet leaves a deliverable message behind exactly when it closes the gap before one that already arrived, or repeats an old one while one is left behind |
| `SlidingWindow.AckKeeps` | lab1/README.md:112-177 | an acknowledgement keeps the sender's books, and what it sends is exactly what leaves the queue, in its order |
| `SlidingWindow.SubmitKeeps` | lab1/README.md:152-162 | a new payload keeps the sender's books |
| `SlidingWindow.ReceiveKeeps` | lab1/README.md:90-105 | a packet keeps the receiver's books and is stored once |
| `SlidingWindow.TimeOutStep` | lab1/README.md:182-188 | a timeout always has a packet to resend and keeps the system's invariant |
| `Endpoints.SenderNode.FromUpperLayer` | lab1/README.md:152-162 | the sender code takes the model's submit step and sends what it sends |
| `Endpoints.SenderNode.FromLowerLayer` | lab1/README.md:112-177 | the acknowledgement code takes the model's acknowledgement step and sends exactly what leaves the queue, in order |
| `Endpoints.SenderNode.RemoveAcked` | lab1/README.md:112-122 | the loop removes exactly the acknowledged packets and frees as many places |
| `Endpoints.SenderNode.RefillWindow` | lab1/README.md:126-136 | the loop moves packets from the queue until the window is full or the queue is empty, and sends each one it moves |
| `Endpoints.SenderNode.OnTimeout` | lab1/README.md:182-188 | sends the packet with the least number in the window again |
| `Endpoints.ReceiverNode.FromLowerLayer` | lab1/README.md:90-105 | the receiver code takes the model's receive step |
| `Endpoints.ReceiverNode.HandUpLoop` | lab1/README.md:95-105 | the loop hands up the contiguous run up to the limit |
| `Endpoints.ReceiverNode.Final` | lab1/README.md:200-212 | the flush ends, having handed up the longest contiguous received prefix |
| `Sorting.SortedUnique` | lab4/src/mapreduce/common_reduce.go:103 | a sorted sequence of strings is determined by its elements |
| `Sorting.LEExactly` | lab4/src/mapreduce/common_reduce.go:103 | one string is not above another if and only if the other starts with it, or its character is the smaller one where the two first differ |
| `MapReduce.ReducePairs` | lab4/src/mapreduce/common_reduce.go:94-117 | one record per distinct key in ascending order with the reduction of the key's sorted values; for no pairs one record with an empty key |
| `MapReduce.FlushGroup` | lab4/src/mapreduce/common_reduce.go:102-112 | a finished group adds exactly the record of its key |
| `MapReduce.GroupBySame` | lab4/src/mapreduce/common_reduce.go:89-117 | the group-by does not depend on the order of the pairs |
| `Pipeline.PipelineExact` | lab4/src/mapreduce/common_reduce.go:94-117 | map, partition, sort, group, reduce and merge yield the plain group-by if and only if no empty partition leaves a record for the empty key, or that record is the right one |
| `Pipeline.PipelineIndependent` | lab4/src/mapreduce/common_map.go:72-77 | with no empty partition the result depends neither on the number of reduce tasks nor on the order of the mappers' outputs |
| `Pipeline.StrayExample` | lab4/src/mapreduce/common_reduce.go:114-117 | one pair and two reduce tasks give a wrong result |
| `Pipeline.MergedAt` | lab4/src/mapreduce/master_splitmerge.go:16-34 | what the merged map holds for each key after any number of reduce outputs |
| `Pipeline.GatheredIsPart` | lab4/src/mapreduce/common_reduce.go:70-88 | the files a reduce task reads hold its partition of everything mapped |
| `Pipeline.MergeOutput` | lab4/src/mapreduce/master_splitmerge.go:25-32 | merging one reduce output adds its partition's group-by |
| `Pipeline.Job.DoMap` | lab4/src/mapreduce/common_map.go:61-77 | appends to each of the task's files its partition of the pairs and changes no other task's files |
| `Pipeline.Job.DoReduce` | lab4/src/mapreduce/common_reduce.go:70-119 | appends to the output file the reduction of a sorted permutation of what the map tasks left for it |
| `Pipeline.Job.Merge` | lab4/src/mapreduce/master_splitmerge.go:16-34 | the records of all outputs, later ones winning |
| `Pipeline.WriteSorted` | lab4/src/mapreduce/master_splitmerge.go:35-48 | each key once, in ascending order, with its value |
| `Retries.Sequential` | lab4/src/mapreduce/master.go:60-80 | a whole job from empty files yields the merged result of the pipeline |
| `Retries.RetriedJob` | lab4/src/mapreduce/schedule.go:47-54 | a job whose tasks are run any number of times merges the result of the duplicated map outputs; repeated reduce tasks make no difference |
| `Retries.RetriedExact` | lab4/src/mapreduce/common_map.go:68-77 | a job with repeated map tasks yields the plain group-by under every reducer if and only if no empty partition leaves a stray record and every task that emitted pairs was run once |
| `Retries.ScheduledExact` | lab4/src/mapreduce/schedule.go:43-58 | after every map phase of the scheduler the job yields the plain group-by under every reducer if and only if no empty partition leaves a stray record and no reply of a task that emitted pairs was lost |
| `Retries.MapTwice` | lab4/src/mapreduce/common_map.go:68-77 | one pair whose map task is run twice gives a wrong result for every reducer that notices the second value |
| `Retries.MapAgain` | lab4/src/mapreduce/common_map.go:68-77 | each repetition appends the task's partitions once more |
| `Retries.ReduceAgain` | lab4/src/mapreduce/common_reduce.go:91-117 | merging an output file that a reduce task wrote one or more times adds its partition's group-by once |
| `Schedule.ScheduleSafe` | lab4/src/mapreduce/schedule.go:37-58 | in every run no two tasks hold the same worker, no worker's counter exceeds one, and every forwarded worker's name is at the channel or with exactly one task |
| `Schedule.ScheduleReturns` | lab4/src/mapreduce/schedule.go:43-58 | on return each task has had exactly one successful call and was run once more than replies were lost, nothing is running and all names are back |
| `Schedule.NeverStuck` | lab4/src/mapreduce/schedule.go:47-54 | in every reachable state with a registered worker some goroutine can move until schedule returns or panics |
| `Schedule.UnreachedCall` | lab4/src/mapreduce/schedule.go:47-54 | a call that never reaches its worker leaves the scheduler exactly as it was |
| `Schedule.CanReturn` | lab4/src/mapreduce/schedule.go:43-58 | from every reachable state with a worker, and with enough input files, some continuation without new faults returns |
| `Schedule.PanicsExactly` | lab4/src/mapreduce/schedule.go:39-41 | some run panics if and only if a reduce phase has more tasks than input files, and then no run returns |
| `Schedule.SafeExactly` | lab4/src/mapreduce/worker.go:44-54 | with the faults that are permitted, every run keeps each worker at one task if and only if calls are never cut off or no task can be launched, and no worker registers twice or at most one task can be launched |
| `Schedule.CutBreaks` | lab4/src/mapreduce/worker.go:44-54 | from every reachable state, a call that fails while the worker still runs the task, followed by steps without any fault, leads to two tasks on that worker |
| `Schedule.CutRun` | lab4/src/mapreduce/worker.go:44-54 | in every job with a task, a run without double registrations from the start to two tasks at once |
| `Schedule.TwoTokensBreak` | lab4/src/mapreduce/master.go:85-101 | a worker's name that is at the channel twice while two tasks wait leads by steps without any fault to both tasks running on it |
| `Schedule.DoubleRegistration` | lab4/src/mapreduce/master.go:85-101 | in every job with two tasks, a run that starts with a worker registering twice and has no other fault ends with both tasks running on it |
| `Schedule.PathKeeps` | lab4/src/mapreduce/schedule.go:43-54 | tokens are conserved and counters match the running calls along every run |
| `GfsFile.Client.Write` | gdocs-k-on/code/client/gfs_api.go:91-180 | by exact conditions: no file, client crash, server crash, or success; success is the splice of the data into the flat file and adds exactly the touched chunks; other files stay |
| `GfsFile.Client.WriteAcross` | gdocs-k-on/code/client/gfs_api.go:99-160 | the loop over chunks is one splice |
| `GfsFile.Client.WritePiece` | gdocs-k-on/code/client/gfs_api.go:112-131 | one piece overwrites its part of one chunk, which is added first when missing |
| `GfsFile.Client.Read` | gdocs-k-on/code/client/gfs_api.go:184-263 | crashes by an exact condition; otherwise returns a contiguous stretch of the flat file of a length given for every case |
| `GfsFile.Client.ReadAcross` | gdocs-k-on/code/client/gfs_api.go:196-242 | the loop with its recomputed remainder terminates and returns that stretch |
| `GfsFile.ReadExact` | gdocs-k-on/code/client/gfs_api.go:198-241 | over existing chunks read returns the requested bytes if and only if the range ends before the end of its second chunk, or at a chunk end behind which no chunk exists |
| `GfsFile.TwoChunksFail` | gdocs-k-on/code/client/gfs_api.go:200 | two whole chunks followed by a third cannot be read in one call |
| `GfsFile.WriteThenRead` | gdocs-k-on/code/client/gfs_api.go:91-263 | reading back what was written returns it under exactly the same condition |
| `GfsFile.WriteLeaves` | gdocs-k-on/code/client/gfs_api.go:91-180 | a write leaves every range it does not meet unchanged |
| `GfsFile.NextPiece` | gdocs-k-on/code/client/gfs_api.go:104-136 | a splice extended by the next piece is the splice of both |
| `GfsFile.Overwritten` | gdocs-k-on/code/chunkserver/chunkserver.go:228-255 | the written bytes change, the others and the length stay |
| `GfsFile.SliceWhole` | gdocs-k-on/code/chunkserver/chunkserver.go:173-198 | what a chunk server reads out of one chunk is that stretch of the flat file |
| `GfsFile.Client.Create` | gdocs-k-on/code/client/gfs_api.go:50-86 | a new file has one chunk; an existing one is left alone |
| `MasterMeta.CountersRun` | gdocs-k-on/code/master/master.go:220-278 | in every run with any version reports, each server's counter is the number of replicas mapped to it and so is never negative |
| `MasterMeta.NewFileCounts` | gdocs-k-on/code/master/master.go:390-407 | creating a file keeps the counters right |
| `MasterMeta.AddChunkCounts` | gdocs-k-on/code/master/master.go:260-276 | adding a chunk keeps the counters right if and only if it is absent or its old replicas are on no listed server |
| `MasterMeta.AddedTwice` | gdocs-k-on/code/master/master.go:260-276 | two servers, one file and its first chunk added again: both counters are two where one replica is mapped |
| `MasterMeta.DeletedCounts` | gdocs-k-on/code/master/master.go:451-509 | deleting a file keeps the counters right |
| `MasterMeta.DeleteCovered` | gdocs-k-on/code/master/master.go:471-480 | the replicas a delete counts down were counted, so no counter wraps |
| `MasterMeta.VersionedCounts` | gdocs-k-on/code/master/rpcToChunkServer.go:153-188 | a version report keeps the counters right if and only if the chunk exists or no server has the empty name |
| `MasterMeta.ReportRevives` | gdocs-k-on/code/master/rpcToChunkServer.go:162-184 | a report for a deleted file makes an entry with one chunk, without names and locations |
| `MasterMeta.TakenExactly` | gdocs-k-on/code/master/rpcToChunkServer.go:162-184 | after any requests that neither create nor delete a file, its name is taken if and only if it was taken before or one of them reports a version for it |
| `MasterMeta.VersionedRecords` | gdocs-k-on/code/master/rpcToChunkServer.go:162-184 | a report sets the version of the replica on the reporting server; every name, every location, the other replica and all other chunks stay |
| `MasterMeta.VersionsRun` | gdocs-k-on/code/master/rpcToChunkServer.go:153-188 | after any requests that do not replace a chunk's record, each replica has the version its server reported last |
| `MasterMeta.PlacedRun` | gdocs-k-on/code/master/master.go:271-277 | from its placing on, a chunk has one name on both servers, made of file and index, and each server has the version it reported last, at first 0 |
| `MasterMeta.AliveRun` | gdocs-k-on/code/master/master.go:511-552 | after any requests a server counts as alive if and only if its last sign was a heartbeat and not the end of its timer |
| `MasterMeta.UpExactly` | gdocs-k-on/code/master/master.go:126-134 | the place the loop finds shows whether a listed server is alive; for an unknown name the first server of the list decides |
| `MasterMeta.ReadsFreshest` | gdocs-k-on/code/master/master.go:104-166 | after any run since a chunk was placed, a reader is sent to one of its servers whose last sign was a heartbeat and which reported at least the version of the other one if that is alive too |
| `MasterMeta.MalformedIndex` | gdocs-k-on/code/master/rpcToChunkServer.go:158-160 | a report whose chunk name does not end in a number is taken for the first chunk |
| `MasterMeta.ChunkIdParses` | gdocs-k-on/code/master/rpcToChunkServer.go:158-160 | for every file name a chunk's name gives back file and index |
| `MasterMeta.PlacingBalances` | gdocs-k-on/code/master/master.go:229-269 | placing two replicas on the least loaded live servers, in any order of ties, keeps the counters within one |
| `MasterMeta.BalanceRun` | gdocs-k-on/code/master/master.go:343-399 | with a fixed set of live servers any number of creations and additions keeps the live counters within one |
| `MasterMeta.HeardCounts` | gdocs-k-on/code/master/master.go:520-536 | a server that joins or comes back keeps the counters right |
| `MasterMeta.FollowerAgrees` | gdocs-k-on/code/master/rpcToReplica.go:11-101 | for every sequence of operations, a follower that received every backup call in order has the leader's chunk map and, for every server it knows, the leader's counter |
| `Masters.PickTwo` | gdocs-k-on/code/master/master.go:343-380 | the two live servers with the fewest chunks; nothing exactly when fewer than two live |
| `Masters.Master.GetChunkLocation` | gdocs-k-on/code/master/master.go:104-166 | error numbers and the fatal exit by exact conditions; otherwise the replica with the highest version among those whose server is up, and the live servers |
| `Masters.Master.FindPlaces` | gdocs-k-on/code/master/master.go:126-134 | the places of both servers in the list |
| `Masters.LiveNamesExactly` | gdocs-k-on/code/master/master.go:158-163 | the servers listed for the reader are exactly the live ones |
| `Masters.Master.AcceptHeartbeat` | gdocs-k-on/code/master/master.go:511-539 | a leader marks the server alive or adds it to the list; a follower does nothing |
| `Masters.Master.PickAnswering` | gdocs-k-on/code/master/master.go:334-388 | choosing again until both servers answer: a choice is by load among the servers still alive at an attempt that was answered; no choice means that fewer than two live or no attempt was answered; only live flags change meanwhile |
| `Masters.SilencedRun` | gdocs-k-on/code/master/master.go:541-552 | timers that run out while the master retries are steps of the leader's run |
| `Masters.SortByCount` | gdocs-k-on/code/master/master.go:36-40 | ascending counts, the same servers |
| `Masters.Master.Bump` | gdocs-k-on/code/master/master.go:260-269 | each replica moves the counter of its server once, twice if both are on one server |
| `Masters.Master.NewFileChunk` | gdocs-k-on/code/master/master.go:283-331 | error numbers by exact conditions; otherwise, after any retries, the leader's step with servers chosen by load, and the chunk map has both replicas under the name that is answered; while no attempt is answered the chunk map stays as it was |
| `Masters.Master.AddFileChunk` | gdocs-k-on/code/master/master.go:170-217 | error numbers by exact conditions; otherwise, after any retries, the leader's step with servers chosen by load, and the chunk map has both replicas under the name that is answered; while no attempt is answered the chunk map stays as it was |
| `Masters.Master.DeleteFileAndChunksFunc` | gdocs-k-on/code/master/master.go:451-509 | in any order of the chunks, every counter falls by the file's replicas on its server, and the file is gone |
| `Masters.Master.UpdateChunkVersionFunc` | gdocs-k-on/code/master/rpcToChunkServer.go:153-188 | sets the version of the replica on the reporting server and changes nothing else; a name without a dash crashes |
| `Masters.CopyChunks` | gdocs-k-on/code/master/rpcToChunkServer.go:177-182 | the rebuilt chunk map is the old one |
| `Masters.Master.NewFileChunkReplica` | gdocs-k-on/code/master/rpcToReplica.go:40-65 | a leader refuses; a follower takes the leader's step, answers -1 exactly for an existing file, and otherwise has both replicas under the name it answers |
| `Masters.Master.AddChunkReplica` | gdocs-k-on/code/master/rpcToReplica.go:11-35 | a leader refuses; a follower takes the leader's step, answers -2 exactly for a missing file, and otherwise has both replicas under the name it answers |
| `Masters.Master.DeleteFileAndChunksReplica` | gdocs-k-on/code/master/rpcToReplica.go:69-83 | a leader refuses; a follower takes the leader's step |
| `Masters.Master.UpdateChunkVersionReplica` | gdocs-k-on/code/master/rpcToReplica.go:85-101 | a leader refuses; a follower sets the version of the replica on the reporting server in the chunk that the name gives and changes nothing else; a name without a dash crashes it |

## Left out

- Checker.CacheContains: the hash is an arbitrary function of the words, so the arithmetic of `popcnt` and `hash` is not modelled; every result holds for any hash.
- Bitset.Set: a word is a sequence of 64 truth values; shifts and masks on machine words are not modelled.
- Checker.CheckSingle: the model's `Step` is a deterministic function and `Equal` is equality; a `Step` that mutates its state is not covered.
- Entries.MakeEntries: each operation is called strictly before it returns; `Ties.AlwaysPlaced` shows that this is needed. What the search answers on entries with a return in front of its call is not modelled.
- CheckOperations.CheckKv: needs a non-empty history of key-value operations; with no part the collecting loop never ends (`Race.LoopEndsOrSteps`), and other inputs fail the type assertion of `Step`.
- CheckOperations.CheckParts: takes the answers one after the other in any order; the concurrent collection, the kill flag and the timeout are in `CheckOperations.ConcurrentCheck`.
- Events.CheckEvents: each identifier has one call and one later return. One part, as no event partition is supplied anywhere; with the key-value model this treats all keys as one register.
- Ties.TiesExactly: for histories whose operations differ in input or output; others are covered by `Entries.VerdictOverSorts` only.
- DocServer.Server.HandleRollBack: stated for documents all of whose values were non-empty, at most 75 bytes, without a run of five spaces and without a final space; `UndoLog.RestoreExact` says what happens to other values.
- DocServer.Server.HandleUpdate: fields hold no tab and no marker word of a later field, as `LogText.ParseUpdateLine` shows to be needed; the cell lies in the grid; the log stays below 10^8 bytes, the width of its length field. Sending the change to other front ends is not modelled.
- Catalogue.Backend.MoveToTrash: asked only for live names, as the front end does; for another name the original stores size 0.
- Catalogue.Backend.RecoverFile: asked only for trashed names, for the same reason.
- Catalogue.Backend.HandleCreate: the catalogue stays below 10^8 bytes, the width of its length field.
- Catalogue.Backend.ChangeValidBit: the first occurrence of the name is its own record; `Catalogue.SetBitExact` shows that this is needed.
- Catalogue.Backend.ClearTrash: the first occurrence of the name is its own record; `Catalogue.CutExact` says what the cut does otherwise.
- Text.NumExtendLoop: numbers are not negative, as in all uses.
- Text.AtoiMalformed: a number beyond the range of machine integers is read as it stands.
- DocServer.Server.HandleEdit: what the lock service answers is a parameter. A lock of a closed connection stays in the lock map, as in the original, until an update of its cell.
- DocServer.Server.HandleOpen: the document exists and is a whole grid; another request is answered with an error and the list of documents. `DocServer.OpenCells` covers every length.
- Endpoints.ReceiverNode.FromLowerLayer: a packet is one that the sender made; a corrupted one counts as lost, as the report says, and the checksum itself (packet layout not shown) is not modelled.
- Retries.Sequential: starts from empty files and runs each task once; `Retries.RetriedJob` covers repeated tasks. JSON encoding and file names are not modelled.
- Schedule.ScheduleSafe: each worker registers once and a failed call leaves nothing running; `Schedule.SafeExactly` shows that this is needed. No fairness is assumed: `Schedule.CanReturn` says that a run can return, not that it must.
- Retries.ScheduledExact: a map phase whose failed calls leave nothing running, as in `Schedule.ScheduleReturns`.
- GfsFile.Client.Write: a file's chunk has one content; what its two replicas hold after an outage is not modelled, since a returning replica receives only the newest write. Offsets and sizes stay below 2^64.
- Masters.PickTwo: server names are distinct, as the list is only extended by new names; fewer than two live servers is reported instead of the original's index panic.
- Masters.Master.PickAnswering: a finite number of attempts is observed, and the answer for none of them successful stands for an original that still retries; the chunk files that failed attempts leave on a server are not modelled.
- MasterMeta.CountersRun: no server reports the empty name, and a chunk is added only where `MasterMeta.AddChunkCounts` allows it.
- MasterMeta.FollowerAgrees: chunk servers answer with the chunk name the follower computes; followers hear no heartbeats, so servers that joined later are not compared.
- Recovery from text logs in `master.go` and `chunkserver.go`: fields are cut from the wrong base (`gdocs-k-on/code/master/master.go:584-592`) and versions read as one digit, so it is no round trip.
- `lab4/src/raft`, `kvraft`, `shardkv`, `shardmaster`: unfilled skeletons without a protocol.
- `lab4/src/labrpc`, `labgob`: reflection, encoding, timers and randomness.
- `lab2/mydemo`, `lab3/qos`: the metering and dropping logic is in DPDK.
- `handleDelete` in `gdocs-k-on/code/client/handlers_ws.go`: marked unused.
- ZooKeeper locks, RPC dialing, heartbeat timing, websockets, JSON and the React front end: input and output.
