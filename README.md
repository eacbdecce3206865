# world-weaver core, modelled in Dafny

world-weaver is a browser-based map editor. This project models its core:

- **The undo/redo machinery.**
  - A doubly linked list of changes (`LinkedList`).
  - A cursor over that list (`current`, `isCurrentApplied`), in two versions:
    - the local `ChangeHistory` (`History`);
    - the `ChangesManager` (`Changes`), which shares its cursor record with a synchroniser.
  - The synchroniser itself (`RemoteSync`). It remembers how far the server's copy has got and computes the batch of deltas that brings it level with the cursor.
  - An alternative outbound queue of deltas (`DeltaQueue`).
- **The only delta kind, `SetPointPositions`** (`Deltas`). It writes point positions into the editor's world, and a `Change` pairs a forward delta with a backward one.
- **The loaders that rebuild geometry from database rows.**
  - Polygons walk their point links (`OrmPolygons`).
  - Networks collect their nodes and edges (`OrmNetworks`).
  - The superseded polygon loader is kept as well (`IoPolygons`).
  - Shared row types and `getOrThrow` lookups (`Rows`).
- **The JSON-schema builders.**
  - The current builder and its queries (`SchemaBuilder`, `SchemaQueries`).
  - The legacy builder (`LegacySchemaBuilder`).
  - Both work over a model of JSON values that keeps key order and the semantics of spreading (`JsonValues`).
- **Smaller pieces.**
  - The array-backed AVL tree search written in Rust (`AvlTree`).
  - The dash-pattern check (`StrokePatternStyle`).
  - `omit` (`ObjectExtensions`).
  - `transformValues` (`MapExtensions`).

Objects whose fields the source updates in place are classes:

- the list;
- the two cursors;
- the synchroniser;
- the delta queue;
- the editor's world;
- deltas and changes.

Each method's contract states the new state in terms of specification functions (`Contents()`, `Queued()`, `Applied()`, `AheadBatch()`, …). Lemmas then prove what the source promises of those functions. The loaders, builders and utilities are pure code and are modelled as datatypes, functions and lemmas.

Modelling conventions:

- A list node is a `Handle` into maps owned by the list. A ghost `order` records the list as iteration sees it.
- A thrown error is an `Err`/`Throws` value carrying its message.
- A Rust panic is the `Panic` outcome.
- A point walk that the source would loop on forever is the `RunsForever` outcome.
- Clocks are integer milliseconds passed in as `now`.
- Where the source has a bug (see "## Findings"), `X` is the corrected definition and `XAsWritten` models the code as written. The rest of the model is built on the corrected one, except the changes manager. Its `push` follows the source, because the list's `tail` handling is what decides which changes `getDeltasAhead` uploads.

## Model

| member | source | states |
|---|---|---|
| LinkedList.DoublyLinkedList.constructor | src/lib/types/linked-list.ts:5-8 | A new list has no head and no tail and yields nothing. |
| LinkedList.DoublyLinkedList.Contents | src/lib/types/linked-list.ts:33-45 | The values are read in list order, one per linked node. |
| LinkedList.DoublyLinkedList.Values | src/lib/types/linked-list.ts:33-45 | The iterator's walk from `head` along `next` yields exactly `Contents()`. |
| LinkedList.DoublyLinkedList.Find | src/lib/types/linked-list.ts:51-58 | `find` returns the first linked node the predicate accepts. It returns null only when no linked node is accepted. |
| LinkedList.DoublyLinkedList.HasNode | src/lib/types/linked-list.ts:47-49 | `hasNode` is true exactly when the node is reachable from `head`. |
| LinkedList.DoublyLinkedList.NewNode | src/lib/types/linked-list.ts:67-71 | A new node gets a fresh handle and the value, and has no links. |
| LinkedList.DoublyLinkedList.InsertAfter | src/lib/types/linked-list.ts:83-93 | The new node is spliced in right after `node`, and the value likewise into the contents. `head` and `tail` are not moved. |
| LinkedList.DoublyLinkedList.PushAsWritten | src/lib/types/linked-list.ts:10-18 | An empty list gets the node as head and tail. Otherwise the node goes right after the old tail, and `tail` stays where it was. On a list whose tail is its last node, this appends. |
| LinkedList.DoublyLinkedList.Push | src/lib/types/linked-list.ts:10-18 | Corrected `push`: the value is appended (`Contents() == old + [value]`), and `tail` moves to the new last node. |
| LinkedList.PushThreeAsWritten | src/lib/types/linked-list.ts:15-17 | Three pushes onto a new list, as written, iterate as `[0, 2, 1]`. |
| LinkedList.PushThree | src/lib/types/linked-list.ts:10-18 | Three appending pushes iterate in insertion order `[0, 1, 2]`. |
| LinkedList.DoublyLinkedList.Unlink | src/lib/types/linked-list.ts:95-106 | `Node.remove` joins the node's neighbours to each other and clears its own links. Nothing else changes. |
| LinkedList.DoublyLinkedList.RemoveAfter | src/lib/types/linked-list.ts:20-31 | It throws exactly when the node is unreachable, and then nothing changes: order, head, tail and links stay as they were. Otherwise the list is cut right after the node, its contents become that prefix, and the node becomes the tail. |
| LinkedList.DoublyLinkedList.Remove | src/lib/controllers/change-history.ts:55 | The list-level `remove` the history calls: the node's value leaves the contents, `head` moves past the node, and a `tail` on the node moves as `TailAfterRemove` says. The list stays well formed. |
| LinkedList.DoublyLinkedList.Clear | src/lib/controllers/change-history.ts:60 | The list-level `clear`: the list becomes empty. |
| LinkedList.DoublyLinkedList.IsEmpty | src/lib/controllers/remote-delta-queue.ts:32 | `isEmpty` is true exactly when the contents are empty. |
| LinkedList.DoublyLinkedList.PopHead | src/lib/controllers/remote-delta-queue.ts:46 | Returns the first value and drops it from the contents. A `tail` on that node moves to its successor. |
| LinkedList.DoublyLinkedList.PopTail | src/lib/controllers/remote-delta-queue.ts:36 | Returns the value of the last node, found by walking from `head`, and drops it. A `tail` on that node moves to its predecessor. |
| LinkedList.DoublyLinkedList.LastNode | src/lib/controllers/remote-delta-queue.ts:36 | The walk from `head` along `next` ends at the last node of the order, wherever `tail` stands. |
| LinkedList.TailAfterRemove | src/lib/types/linked-list.ts:95-106 | Where `tail` stands after a removal: a tail on the removed node moves to its predecessor, to its successor when it was first, or to nothing when it was alone. Any other tail stays. |
| LinkedList.DoublyLinkedList.TailCount | src/lib/types/linked-list.ts:3 | The number of nodes up to and including `tail`: zero exactly on an empty list, and otherwise `tail` is node number `TailCount()`. |
| LinkedList.DoublyLinkedList.TailCountOfValid | src/lib/types/linked-list.ts:10-18 | On a list whose `tail` is its last node, `TailCount()` is the length. |
| LinkedList.DoublyLinkedList.TailCountAfterRemove | src/lib/types/linked-list.ts:95-106 | After the node at position `k` is removed, `TailCount()` is `CountAfterRemove` of the old count: the predecessor's count (or one, or none) for a removed tail, one fewer for a later tail, the same for an earlier one. |
| LinkedList.DoublyLinkedList.GetNext | src/lib/controllers/remote-changes-manager.ts:102 | `getNext(from, to)` yields the contents from `from`'s position to `to`'s, both included. |
| LinkedList.DoublyLinkedList.GetPrevious | src/lib/controllers/remote-changes-manager.ts:130 | `getPrevious(from, to)` yields the contents from `from` back to `to`, newest first. |
| LinkedList.DoublyLinkedList.AllAfter | src/lib/types/linked-list.ts:73-81 | A fresh list holding the values after the node in `PushedAsWritten` order: the first one, then the rest newest first, because `push` as written keeps `tail` on the first node. The original list is untouched. |
| LinkedList.PushedAsWritten | src/lib/types/linked-list.ts:10-18 | Pushing the values of `s` one by one, as written, onto a new list iterates as `s[0]`, then `s[n-1]`, …, `s[1]`. |
| LinkedList.PushedAsWrittenSnoc | src/lib/types/linked-list.ts:15-17 | One more push as written puts the value right after the first one. |
| LinkedList.PushOnePushedAsWritten | src/lib/types/linked-list.ts:15-17 | A push as written onto a list holding `PushedAsWritten(s)`, with `tail` on its first node, leaves it holding `PushedAsWritten(s + [v])`, `tail` unmoved. |
| LinkedList.ChainNoRepeat | src/lib/types/linked-list.ts:62-65 | Following `next` links that end in null never revisits a node. |
| LinkedList.ChainInsert | src/lib/types/linked-list.ts:83-93 | The links `insertAfter` writes form a doubly linked chain over the spliced order. |
| LinkedList.ChainRemove | src/lib/types/linked-list.ts:95-106 | The links `Node.remove` writes form a chain over the order without the node. |
| LinkedList.ChainTruncate | src/lib/types/linked-list.ts:26-30 | The links `removeAfter` writes form a chain over the prefix up to the node. |
| LinkedList.InsertShape | src/lib/types/linked-list.ts:83-93 | Splicing after position `i` keeps the list invariant and splices the value into the contents. |
| LinkedList.RemoveShape | src/lib/types/linked-list.ts:95-106 | Unlinking position `i`, with `head`/`tail` moved past it, keeps the invariant and drops that value. |
| LinkedList.TruncateShape | src/lib/types/linked-list.ts:20-31 | Cutting after position `i` keeps the invariant and keeps the contents' prefix. |
| History.ChangeHistory.constructor | src/lib/controllers/change-history.ts:10-14 | A new history: an empty list, no current node, nothing applied. |
| History.ChangeHistory.Previous | src/lib/controllers/change-history.ts:90-92 | `current?.previous ?? null` is the node before the current position, or null at the head. |
| History.ChangeHistory.Next | src/lib/controllers/change-history.ts:94-96 | `current?.next ?? null` is the node after the current position, or null at the end. |
| History.ChangeHistory.Kept | src/lib/controllers/change-history.ts:51-65 | The number of changes pruning keeps: those through the current node if it is applied, those before it if not. |
| History.ChangeHistory.UndoTarget | src/lib/controllers/change-history.ts:21-34 | The position `undo` takes back: the current one if applied, else the one before it; none at the start. |
| History.ChangeHistory.RedoTarget | src/lib/controllers/change-history.ts:36-49 | The position `redo` makes again: the current one if undone, else the one after it; none at the end. |
| History.ChangeHistory.SetCurrent | src/lib/controllers/change-history.ts:16-19 | The contents become the kept prefix followed by the new change, which is the last, current and applied. |
| History.ChangeHistory.PruneUndoneChanges | src/lib/controllers/change-history.ts:51-65 | The order is cut to the kept prefix, and the current node is its last node (none when empty). |
| History.ChangeHistory.TruncateAfterCurrent | src/lib/controllers/change-history.ts:58-62 | `clear`, or `removeAfter(current)`: the order is cut right after the current node, which becomes the last node and the tail. |
| History.ChangeHistory.DropUndoneCurrent | src/lib/controllers/change-history.ts:53-57 | An unapplied current node is unlinked, and its predecessor, read first, becomes current. |
| History.ChangeHistory.Push | src/lib/controllers/change-history.ts:66-69 | `push` as written, on the list pruning leaves, whose tail is its last node: it appends the change and makes it the applied current node. |
| History.ChangeHistory.Undo | src/lib/controllers/change-history.ts:21-34 | Without an undo target it returns null and moves no point. Otherwise the cursor moves to the target and the world gets the target's backward delta. It succeeds exactly when every point is found, and then returns the change and clears the flag. The list never changes. |
| History.ChangeHistory.Redo | src/lib/controllers/change-history.ts:36-49 | The mirror image of `Undo`, with the forward delta and the flag set on success. |
| History.ChangeHistory.UndoCurrent | src/lib/controllers/change-history.ts:72-79 | Applies the current change's backward delta. Only a success clears the flag. |
| History.ChangeHistory.RedoCurrent | src/lib/controllers/change-history.ts:81-88 | Applies the current change's forward delta. Only a success sets the flag. |
| History.RecordThree | src/test/change-history.test.ts:58-60 | Three `setCurrent`s on a new history hold `[c0, c1, c2]`, with the last one current and applied. |
| History.UndoTwice | src/test/change-history.test.ts:58-63 | Two undos from there leave `c1` current and undone, with the list unchanged. |
| History.TwoUndone | src/test/change-history.test.ts:58-63 | A new history after three changes and two undos: `[c0, c1, c2]` with `c1` current and undone. |
| History.RecordTwo | src/lib/controllers/change-history.ts:36-49 | Two changes recorded on a new history: `[c0, c1]` with `c1` current and applied, and redo then returns null. |
| History.UndoTwo | src/lib/controllers/change-history.ts:21-34 | Undoing both of two applied changes leaves the first one current and undone. |
| History.SetCurrentAfterTwoUndos | src/test/change-history.test.ts:77-95 | A new change after two undos leaves `[c0, n]`. |
| History.SetCurrentAfterUndosAndRedo | src/test/change-history.test.ts:97-118 | After two undos and a redo, a new change leaves `[c0, c1, n]`. |
| History.UndoRedoOnEmptyHistory | src/test/change-history.test.ts:184-194 | On a new history, `undo` (and `redo`) return null. |
| History.UndoRedoAtBoundaries | src/test/change-history.test.ts:261-279 | Redo with the last change applied returns null, and so does undo with the first change undone. |
| RemoteSync.ChangeManagerData.constructor | src/lib/types/change-manager-data.ts:4-8 | The record `{list, current, isCurrentApplied}` starts empty, with no current node and nothing applied. |
| RemoteSync.ChangeManagerData.Applied | src/lib/types/change-manager-data.ts:4-8 | The number of locally applied changes: through the current node if it is applied, before it if not. |
| RemoteSync.ChangeManagerData.UndoTarget | src/lib/controllers/changes-manager.ts:37-52 | `undo` takes back the last applied change, if there is one. |
| RemoteSync.ChangeManagerData.RedoTarget | src/lib/controllers/changes-manager.ts:54-69 | `redo` makes again the first unapplied change, if there is one. |
| RemoteSync.ChangeManagerData.Previous | src/lib/controllers/changes-manager.ts:128-130 | The node before the current one, or null. |
| RemoteSync.ChangeManagerData.Next | src/lib/controllers/changes-manager.ts:132-134 | The node after the current one, or null. |
| Changes.ChangesManager.constructor | src/lib/controllers/changes-manager.ts:12-20 | An empty record, and a synchroniser with no remote node, at the cursor, that has uploaded nothing. The pair starts in sync. |
| Changes.ChangesManager.SetCurrent | src/lib/controllers/changes-manager.ts:22-35 | Corrected pruning, push as written. The contents become the applied prefix plus the new change, which is last, current and applied. The list's `tail` stays one node behind it. Exactly one batch, `[change.forward]`, is uploaded, and the remote copy stays in sync. |
| Changes.ChangesManager.AppendAndUpload | src/lib/controllers/changes-manager.ts:28-34 | On a pruned list whose tail is last, the change is appended and made current, and the remote, at the last node, receives `[change.forward]` alone. |
| Changes.ChangesManager.SetCurrentAsWritten | src/lib/controllers/changes-manager.ts:22-35 | Pruning and push as written. What is kept is the applied prefix, followed by the undone changes after an unapplied current node. The new change goes right after the list's `tail`, at the position `CountAfterRemove` gives. The batch replays the kept changes from the remote's position up to it, then the new change. The remote ends in sync. |
| Changes.ChangesManager.RemoveUndoneChanges | src/lib/controllers/changes-manager.ts:71-85 | Corrected: the order becomes the applied prefix, and the current node is its last node, as is `tail`. |
| Changes.ChangesManager.TruncateAfterCurrent | src/lib/controllers/changes-manager.ts:81-83 | `removeAfter(current)`, or clearing when nothing is current: the order is cut after the current node, which becomes the tail. |
| Changes.ChangesManager.RemoveUndoneChangesAsWritten | src/lib/controllers/changes-manager.ts:71-85 | As written: an unapplied current node is removed, but everything after it stays, no node is current, and `tail` moves as `TailAfterRemove` says. An applied or empty cursor is pruned normally. |
| Changes.ChangesManager.DropUndoneCurrentAsWritten | src/lib/controllers/changes-manager.ts:76-79 | The node is unlinked, then its already-cleared `previous` is read, so `current` becomes null. `tail` moves as `TailAfterRemove` says, and its count as `CountAfterRemove` says. |
| Changes.ChangesManager.DropUndoneCurrent | src/lib/controllers/changes-manager.ts:76-79 | Reading the predecessor first makes it the current node. |
| Changes.ChangesManager.Push | src/lib/controllers/changes-manager.ts:87-90 | `push` as written: the change goes right after the list's `tail`, at position `TailCount()`, and becomes the applied current node. `tail` stays unless the list was empty. |
| Changes.ChangesManager.PushAndUpload | src/lib/controllers/changes-manager.ts:26-34 | After push and notification, the change stands right after the tail. The uploaded batch is the forward deltas of the changes from the remote's position up to the tail, then the new change. |
| Changes.ChangesManager.UploadMade | src/lib/controllers/changes-manager.ts:102-107 | After a redo the remote, behind the cursor, receives the forward deltas up to the current change and is back in sync. |
| Changes.ChangesManager.UploadTakenBack | src/lib/controllers/changes-manager.ts:92-97 | After an undo the remote, at the cursor, receives the backward delta of the current change and is back in sync. |
| Changes.ChangesManager.Undo | src/lib/controllers/changes-manager.ts:37-52 | Without a target it returns false and changes nothing. Otherwise the world gets the target's backward delta, and the call succeeds exactly when every point is found. On success the flag is cleared, the remote stays in sync, and exactly `[c.backward]` is uploaded. On failure the flag and the uploads stay. |
| Changes.ChangesManager.Redo | src/lib/controllers/changes-manager.ts:54-69 | The mirror image of `Undo`, with the forward delta uploaded on success. |
| Changes.ChangesManager.UndoCurrent | src/lib/controllers/changes-manager.ts:92-100 | Applies the backward delta. A success clears the flag and uploads it, and a failure leaves the flag and the remote alone. |
| Changes.ChangesManager.RedoCurrent | src/lib/controllers/changes-manager.ts:102-110 | Applies the forward delta. A success sets the flag and uploads it, and a failure leaves the flag and the remote alone. |
| Changes.RecordThree | src/test/changes-manager.test.ts:21-28 | Three new changes give `[c1, c2, c3]`, each uploaded as it is made. The list's `tail` is left on `c2`. |
| Changes.ThreeRecorded | src/test/changes-manager.test.ts:21-28 | The same three changes on a fresh manager. |
| Changes.UndoTwice | src/test/changes-manager.test.ts:42-50 | Two undos leave one change applied and upload the two backward deltas, newest first. |
| Changes.TwoUndone | src/test/changes-manager.test.ts:42-50 | A fresh manager after three changes and two undos: `c2` current and undone, with `tail` on it. |
| Changes.PruneOnNewChange | src/test/changes-manager.test.ts:32-57 | Corrected: three changes, two undos and a new change give `[c1, c4]`, and one batch is uploaded per step. |
| Changes.PruneOnNewChangeAsWritten | src/lib/controllers/changes-manager.ts:71-90 | As written, three changes, two undos and a new change give `[c1, c4, c3]`. `c2` is removed, `c4` goes right after the tail `c1`, and `c3` survives. The last batch is `[c4.forward]`, and a redo then re-applies `c3`, uploading `[c3.forward]`. |
| Changes.NewChangeAfterTwoUndosAsWritten | src/lib/controllers/changes-manager.ts:71-90 | The first part: the list is `[c1, c4, c3]` with two changes applied, and the last batch is `[c4.forward]`. |
| Changes.RedoNext | src/lib/controllers/changes-manager.ts:54-69 | Redoing the first unapplied change `c` makes it current and uploads `[c.forward]`. |
| RemoteSync.RemoteChangesManager.constructor | src/lib/controllers/remote-changes-manager.ts:15-20 | No remote node, at the cursor, last upload at time 0. |
| RemoteSync.RemoteChangesManager.BeforeMovingCurrentBack | src/lib/controllers/remote-changes-manager.ts:22-26 | A remote node at the cursor becomes `Ahead`. Nothing else changes. |
| RemoteSync.RemoteChangesManager.BeforeMovingCurrentForward | src/lib/controllers/remote-changes-manager.ts:28-32 | A remote node at the cursor becomes `Behind`. Nothing else changes. |
| RemoteSync.RemoteChangesManager.AfterMovingCurrent | src/lib/controllers/remote-changes-manager.ts:34-38 | A cursor that arrives at the remote node makes it `AtCurrent`. |
| RemoteSync.RemoteChangesManager.AfterMovingCurrentForward | src/lib/controllers/remote-changes-manager.ts:40-42 | The remote becomes `Behind` unconditionally. |
| RemoteSync.RemoteChangesManager.ShouldUpload | src/lib/controllers/remote-changes-manager.ts:63-68 | True exactly when there are more than 0 deltas, or more than 300 s (300000 ms) have passed since the last upload. |
| RemoteSync.RemoteChangesManager.GetDeltasResult | src/lib/controllers/remote-changes-manager.ts:147-153 | Without overrides, the result is an empty batch that keeps the remote node and position. |
| RemoteSync.RemoteChangesManager.AheadFrom | src/lib/controllers/remote-changes-manager.ts:87 | `remote?.next ?? list.head` is the node at `AheadStart()`: the one after the remote node, or the head when there is no remote node or it is the last one. |
| RemoteSync.RemoteChangesManager.AheadEnd | src/lib/controllers/remote-changes-manager.ts:101 | The forward walk ends at the last applied node. |
| RemoteSync.RemoteChangesManager.GetDeltasAhead | src/lib/controllers/remote-changes-manager.ts:86-105 | The walk computes `AheadBatch()`: the forward deltas of the changes after the remote node through the last applied one. |
| RemoteSync.RemoteChangesManager.AheadBatchReachesCursor | src/lib/controllers/remote-changes-manager.ts:95-103 | That batch holds one delta per change the remote lacks, and its new remote node is the last applied one. |
| RemoteSync.RemoteChangesManager.AheadFallsBackToHead | src/lib/controllers/remote-changes-manager.ts:87 | Behind, with the remote node last and the current node applied, the walk restarts at the head and replays every applied change. |
| RemoteSync.RemoteChangesManager.BehindEnds | src/lib/controllers/remote-changes-manager.ts:112-127 | The backward walk stops at the first locally unapplied node: the one after an applied current node, else the current node. Its predecessor is the last applied node, which becomes the remote node. |
| RemoteSync.RemoteChangesManager.BehindFrom | src/lib/controllers/remote-changes-manager.ts:129 | `remote?.previous ?? list.tail` is the node before `BehindStart()`: the one before the remote node, or the list's `tail` when there is no remote node or it is the head. |
| RemoteSync.RemoteChangesManager.BehindFallsBackToTail | src/lib/controllers/remote-changes-manager.ts:129 | Ahead with the remote node at the head, the walk starts at the tail. The batch takes back the unapplied changes up to the tail, newest first, the remote node's own change included. It is defined exactly when some unapplied change lies at or before the tail. |
| RemoteSync.RemoteChangesManager.GetDeltasBehind | src/lib/controllers/remote-changes-manager.ts:107-132 | The walk computes `BehindBatch()`: backward deltas, newest first, with the new remote node and position. |
| RemoteSync.RemoteChangesManager.GetDeltasAtCurrent | src/lib/controllers/remote-changes-manager.ts:134-145 | The batch is the remote node's backward delta, and the remote moves to the node before the cursor, `Behind`. |
| RemoteSync.RemoteChangesManager.AtCurrentBatchReachesCursor | src/lib/controllers/remote-changes-manager.ts:134-145 | At an undone current node, the batch undoes exactly that change, and the remote then holds the applied prefix. |
| RemoteSync.RemoteChangesManager.GetDeltas | src/lib/controllers/remote-changes-manager.ts:70-84 | Dispatches on the position and returns `PendingBatch()`. |
| RemoteSync.RemoteChangesManager.SyncedIsIdle | src/lib/controllers/remote-changes-manager.ts:79-83 | In sync, the pending batch is empty and moves nothing. |
| RemoteSync.RemoteChangesManager.Upload | src/lib/controllers/remote-changes-manager.ts:155-158 | The batch is recorded and the time stamped. The remote node and position stay. |
| RemoteSync.RemoteChangesManager.MaybeUpload | src/lib/controllers/remote-changes-manager.ts:44-61 | When due, it uploads the pending batch and commits its new remote node and position. Otherwise it changes nothing. |
| DeltaQueue.RecordQueue | src/lib/controllers/remote-delta-queue.ts:26-29 | Corrected: recording appends the forward delta to the queue. |
| DeltaQueue.QueuePushAsWritten | src/lib/types/linked-list.ts:10-18 | `push` as written on the queue: an empty queue gets the delta alone; otherwise the delta lands right after the head. |
| DeltaQueue.RecordQueueAsWritten | src/lib/controllers/remote-delta-queue.ts:26-29 | As written, recording adds the forward delta right after the head, and the queue gains exactly that delta. |
| DeltaQueue.RecordedAsWrittenOrder | src/lib/controllers/remote-delta-queue.ts:26-29 | Changes recorded one by one, as written, queue their forward deltas in `PushedAsWritten` order, which `upload` sends. |
| DeltaQueue.RecordedOrder | src/lib/controllers/remote-delta-queue.ts:26-29 | With the appending push, they are queued in the order they were made. |
| DeltaQueue.RecordThreeAsWritten | src/lib/controllers/remote-delta-queue.ts:26-29 | Three changes `a`, `b`, `c` recorded as written are queued as `[a, c, b]`. |
| DeltaQueue.UndoQueueAsWritten | src/lib/controllers/remote-delta-queue.ts:31-39 | If the head is the change's forward delta, the delta at the end is dropped. Otherwise the backward delta is pushed as written, right after the head. |
| DeltaQueue.RedoQueueAsWritten | src/lib/controllers/remote-delta-queue.ts:41-49 | If the head is the change's backward delta, the head is dropped. Otherwise the forward delta is pushed as written, right after the head. |
| DeltaQueue.UndoQueue | src/lib/controllers/remote-delta-queue.ts:31-39 | Corrected: a forward delta queued last is cancelled. Otherwise the backward delta is queued. |
| DeltaQueue.RedoQueue | src/lib/controllers/remote-delta-queue.ts:41-49 | Corrected: a backward delta queued last is cancelled. Otherwise the forward delta is queued. |
| DeltaQueue.UndoCancelsRecord | src/lib/controllers/remote-delta-queue.ts:31-39 | Undoing the change just recorded restores the queue. |
| DeltaQueue.RedoCancelsUndo | src/lib/controllers/remote-delta-queue.ts:41-49 | Redoing the change just undone restores the queue. |
| DeltaQueue.UndoCancelsRedo | src/lib/controllers/remote-delta-queue.ts:31-39 | Undoing the change just redone restores the queue. |
| DeltaQueue.RecordTwoUndoTwo | src/lib/controllers/remote-delta-queue.ts:26-39 | Corrected: record `a`, record `b`, undo `b`, undo `a` leaves an empty queue. |
| DeltaQueue.RecordTwoUndoTwoAsWritten | src/lib/controllers/remote-delta-queue.ts:26-39 | As written, the same steps leave `[a.forward, b.backward]` queued: an edit applied and an edit taken back that the server never received. |
| DeltaQueue.RemoteDeltaQueue.constructor | src/lib/controllers/remote-delta-queue.ts:17-24 | An empty queue with count 0, last uploaded at time 0. |
| DeltaQueue.RemoteDeltaQueue.Queued | src/lib/controllers/remote-delta-queue.ts:10-12 | The queue's contents; their length is `newLocalChangesCount`. |
| DeltaQueue.RemoteDeltaQueue.SetCurrent | src/lib/controllers/remote-delta-queue.ts:26-29 | Corrected: `Queued()` becomes `RecordQueue(old, change)`, and the count goes up by one. |
| DeltaQueue.RemoteDeltaQueue.SetCurrentAsWritten | src/lib/controllers/remote-delta-queue.ts:26-29 | As written: `Queued()` becomes `RecordQueueAsWritten(old, change)`, and `tail` stays on the head. |
| DeltaQueue.RemoteDeltaQueue.PushAsWritten | src/lib/controllers/remote-delta-queue.ts:27 | `Queued()` becomes `QueuePushAsWritten(old, d)`, the count goes up by one, and `tail` stays on the head. |
| DeltaQueue.RemoteDeltaQueue.IsUndoingPrevious | src/lib/controllers/remote-delta-queue.ts:57-59 | True exactly when the head is the change's forward delta. |
| DeltaQueue.RemoteDeltaQueue.IsRedoingPrevious | src/lib/controllers/remote-delta-queue.ts:61-63 | True exactly when the head is the change's backward delta. |
| DeltaQueue.RemoteDeltaQueue.IsLastQueued | src/lib/controllers/remote-delta-queue.ts:31-49 | True exactly when the delta queued last is the given one: the test the corrected undo and redo make. |
| DeltaQueue.RemoteDeltaQueue.UndoAsWritten | src/lib/controllers/remote-delta-queue.ts:31-39 | `Queued()` becomes `UndoQueueAsWritten(old, change)`, and the count follows. |
| DeltaQueue.RemoteDeltaQueue.RedoAsWritten | src/lib/controllers/remote-delta-queue.ts:41-49 | `Queued()` becomes `RedoQueueAsWritten(old, change)`, and the count follows. |
| DeltaQueue.RemoteDeltaQueue.Undo | src/lib/controllers/remote-delta-queue.ts:31-39 | Corrected: `Queued()` becomes `UndoQueue(old, change)`. |
| DeltaQueue.RemoteDeltaQueue.Redo | src/lib/controllers/remote-delta-queue.ts:41-49 | Corrected: `Queued()` becomes `RedoQueue(old, change)`. |
| DeltaQueue.RemoteDeltaQueue.ShouldUpload | src/lib/controllers/remote-delta-queue.ts:65-70 | True exactly when more than 3 deltas wait or more than 3 s (3000 ms) have passed. |
| DeltaQueue.RemoteDeltaQueue.Upload | src/lib/controllers/remote-delta-queue.ts:72-79 | Hands the whole queue over as one batch, stamps the time, and empties the queue. |
| DeltaQueue.RemoteDeltaQueue.MaybeUpload | src/lib/controllers/remote-delta-queue.ts:51-55 | Uploads exactly when `ShouldUpload` holds. Otherwise nothing changes. |
| Deltas.GetIdentifier | src/lib/deltas/base-delta.ts:61-63 | A point with a non-empty temporary CUID is named by it, and any other point by its id. |
| Deltas.EditorWorld.constructor | src/lib/controllers/editor-world.ts:71-80 | The world holds the given point positions, keyed by the identifier a delta names each point with. Which identifiers `getPointOrThrow` finds is decided by `FoundAsWritten`, or by map membership in the corrected lookup. |
| Deltas.ApplyItems | src/lib/deltas/set-point-positions.ts:24-31 | Corrected lookup, where a temporary identifier finds the point holding that CUID. Writing the items never adds or removes a point. |
| Deltas.ApplyItemsAsWritten | src/lib/controllers/editor-world.ts:71-80 | The lookup as written: the writes stop at the first item whose identifier is temporary or names no point, which is then reported. No point is added or removed. |
| Deltas.ApplyAsWrittenStopsAtFirstTemporary | src/lib/controllers/editor-world.ts:91-96 | As written, applying is the corrected apply of the items before the first temporary identifier, then a failure at that identifier if they went through. On items with no temporary identifier the two agree. |
| Deltas.TemporaryPointNotFoundAsWritten | src/lib/controllers/editor-world.ts:71-80 | A point just made by the editor (id -1, a CUID) is named by its CUID. Moving it fails as written, and succeeds with the corrected lookup. |
| Deltas.ApplyFailsAtFirstMissing | src/lib/controllers/editor-world.ts:71-80 | Corrected lookup: applying fails exactly when some item names no point. It then names the first such item, and the writes before it are kept. |
| Deltas.ApplyLastWins | src/lib/deltas/set-point-positions.ts:25-29 | On success, each point ends at the position of the last item naming it, and untouched points keep theirs. |
| Deltas.SetPointPositions.constructor | src/lib/deltas/set-point-positions.ts:19-22 | The delta keeps its base record and its items. |
| Deltas.SetPointPositions.Apply | src/lib/deltas/set-point-positions.ts:24-31 | Corrected lookup: the world becomes `ApplyItems(old, data)`. The result is true exactly when no point is missing, and otherwise the call throws. |
| Deltas.SetPointPositions.ApplyAsWritten | src/lib/deltas/set-point-positions.ts:24-31 | As written: the world becomes `ApplyItemsAsWritten(old, data)`. The result is true exactly when every item names a saved point. A temporary identifier throws "Point with temporaryCuid undefined was not found". |
| Deltas.Change.constructor | src/lib/deltas/change.ts:8-11 | The change keeps its forward and backward deltas. |
| Deltas.Change.Undo | src/lib/deltas/change.ts:13-15 | Applies the backward delta and passes on its result. |
| Deltas.Change.Redo | src/lib/deltas/change.ts:17-19 | Applies the forward delta and passes on its result. |
| Deltas.MakeSetPointPositions | src/lib/deltas/set-point-positions.ts:34-46 | Both deltas share the base record. Forward moves each point to its new position and backward to its old one. |
| Deltas.ForwardBackwardAgree | src/lib/deltas/set-point-positions.ts:36-43 | The two item lists name the same points in the same order. |
| Deltas.RedoThenUndoRestores | src/lib/deltas/set-point-positions.ts:34-46 | Corrected lookup: for distinct points that start at their old positions, forward then backward succeeds and restores the world exactly. |
| Rows.GetOrThrow | src/lib/orm/network-loader.ts:110-124 | The `get…OrThrow` lookups (also in both polygon loaders) return the stored row exactly when the key is present, and otherwise throw their error. |
| Rows.CollectById | src/lib/orm/polygon-loader.ts:27-34 | `new Map(rows.map(…))` returns exactly when every row's construction returns. The keys are the row ids, and the first failure is the outcome. |
| Rows.CollectByIdLastWins | src/lib/orm/polygon-loader.ts:27-34 | A repeated id maps to the value built from its last row. |
| OrmPolygons.EdgesOf | src/lib/orm/polygon-loader.ts:49 | The `edges` map of a polygon; it is empty when there are no rows. |
| OrmPolygons.EdgesOfKeys | src/lib/orm/polygon-loader.ts:49 | Its keys are exactly the point ids of the polygon's rows. |
| OrmPolygons.EdgesOfLastRow | src/lib/orm/polygon-loader.ts:49 | A point id maps to the next point of the last row holding it. |
| OrmPolygons.Walk | src/lib/orm/polygon-loader.ts:51-64 | The recorded walk starts at `from` and never exceeds its fuel. |
| OrmPolygons.WalkLinks | src/lib/orm/polygon-loader.ts:51-64 | Consecutive recorded points are linked by rows. A walk that stops early stops at a point without a row or with a null next point. |
| OrmPolygons.WalkStep | src/lib/orm/polygon-loader.ts:60-64 | Each pass records the current point and goes on from its next point, and the walk ends right after a point without a next one. |
| OrmPolygons.WalkOutcome | src/lib/orm/polygon-loader.ts:60-70 | A returned polygon lists exactly the recorded points under the polygon's id. |
| OrmPolygons.PolygonOutcome | src/lib/orm/polygon-loader.ts:44-71 | A returned polygon carries the row's id. |
| OrmPolygons.WalkPoints | src/lib/orm/polygon-loader.ts:60-70 | The loop and the size check compute `WalkOutcome` of the walk. |
| OrmPolygons.ConstructPolygonWithIdReferences | src/lib/orm/polygon-loader.ts:44-71 | Computes `PolygonOutcome`. A returned polygon carries the row's id. |
| OrmPolygons.ReturnedPolygonIsRing | src/lib/orm/polygon-loader.ts:44-71 | A returned polygon starts at the start point, follows the next links, ends at the null link, and lists every point of the polygon's rows exactly once. |
| OrmPolygons.EndedWalkHasNoRepeats | src/lib/orm/polygon-loader.ts:60-64 | A walk ending at a null next point never repeats a point. |
| OrmPolygons.EndedWalkCoversRows | src/lib/orm/polygon-loader.ts:66-68 | Such a walk that passes the size check covers every row exactly once. |
| OrmPolygons.NoRepeatsBound | src/lib/orm/polygon-loader.ts:60-64 | A walk that never repeats a point is no longer than the set of rows, so a longer walk has revisited a point. |
| OrmPolygons.LaterPointsDiffer | src/lib/orm/polygon-loader.ts:60-64 | In a walk that ends at a null next point, no point comes back later. |
| OrmPolygons.WalkRunsForever | src/lib/orm/polygon-loader.ts:60-64 | When the outcome is `RunsForever`, the source loop never stops: every number of steps is taken in full. |
| OrmPolygons.ClosedWalkIsFull | src/lib/orm/polygon-loader.ts:51-58 | From a set of points closed under next links, the walk never stops. |
| OrmPolygons.ConstructPolygonsWithIdReferences | src/lib/orm/polygon-loader.ts:27-34 | Returns exactly when every polygon builds, keyed by exactly the row ids. Otherwise the first failing row's error is the outcome. |
| OrmPolygons.PolygonsKeyedById | src/lib/orm/polygon-loader.ts:27-34 | Each id maps to the polygon built from its last row. |
| IoPolygons.RowsOf | src/lib/io/polygon-loader.ts:51 | The polygon's rows: the filter keeps exactly the rows with its id. |
| IoPolygons.PolygonFailure | src/lib/io/polygon-loader.ts:45-73 | The thrown error is decided by the rows: a read of `undefined` when there are none, the missing start point, a row without a next point, or else a last row with one. |
| IoPolygons.ConstructPolygon | src/lib/io/polygon-loader.ts:45-73 | The old constructor always throws `PolygonFailure`. |
| IoPolygons.PolygonOutcome | src/lib/io/polygon-loader.ts:45-73 | Building one polygon never returns. |
| IoPolygons.ConstructPolygons | src/lib/io/polygon-loader.ts:27-35 | Returns (an empty map) exactly when there are no polygon rows. Otherwise it throws the first row's error. |
| OrmNetworks.Filter | src/lib/orm/network-loader.ts:92 | Keeps exactly the accepted elements, in order. |
| OrmNetworks.NodeRowsInNetwork | src/lib/orm/network-loader.ts:92 | Exactly the node rows of the network. |
| OrmNetworks.FilterConcat | src/lib/orm/network-loader.ts:92 | Filtering distributes over concatenation, so order is kept. |
| OrmNetworks.ConstructNetworkNodeWithIdReferences | src/lib/orm/network-loader.ts:106-108 | A node is keyed by its own id and keeps its point. |
| OrmNetworks.NodesMap | src/lib/orm/network-loader.ts:93 | The keys are exactly the row ids. |
| OrmNetworks.NodesMapLastWins | src/lib/orm/network-loader.ts:93 | A repeated id maps to the node of its last row. |
| OrmNetworks.NodesMapEntry | src/lib/orm/network-loader.ts:93 | Each entry of the node map is keyed by its own node's id. |
| OrmNetworks.InArrayIndices | src/lib/orm/network-loader.ts:97 | JavaScript `x in array` is an index test. |
| OrmNetworks.EdgesInNetworkAsWritten | src/lib/orm/network-loader.ts:95-97 | As written, an edge is kept exactly when its start id is an index of the node array. |
| OrmNetworks.EdgesInNetwork | src/lib/orm/network-loader.ts:95-97 | Corrected: an edge is kept exactly when it leaves one of the network's nodes. |
| OrmNetworks.ConstructNetworkWithIdReferencesAsWritten | src/lib/orm/network-loader.ts:86-104 | The network's id, its nodes keyed by id, and the edges the index test keeps. |
| OrmNetworks.ConstructNetworkWithIdReferences | src/lib/orm/network-loader.ts:86-104 | Corrected: the nodes are exactly the network's rows, keyed by their ids. The edges are exactly those leaving one of its nodes. |
| OrmNetworks.EdgeFromOwnNodeDroppedAsWritten | src/lib/orm/network-loader.ts:97 | As written, an edge leaving node 10 of a one-node network is dropped. |
| OrmNetworks.ForeignEdgeKeptAsWritten | src/lib/orm/network-loader.ts:97 | As written, an edge leaving another network's node 0 is kept. |
| OrmNetworks.ConstructNetworksWithIdReferences | src/lib/orm/network-loader.ts:45-56 | Corrected: one network per network-row id, each built by the corrected `ConstructNetworkWithIdReferences`. |
| OrmNetworks.ConstructNetworksWithIdReferencesAsWritten | src/lib/orm/network-loader.ts:45-56 | As written: one network per network-row id, each built with the index test. |
| OrmNetworks.NetworksDifferOnlyInEdges | src/lib/orm/network-loader.ts:45-56 | Both build networks under the same ids with the same nodes. They differ only in the edges each keeps. |
| SchemaQueries.Children | src/lib/json-schema/json-schema-queries.ts:18-21 | `allOf`/`oneOf` as a list of smaller schemas, empty when absent. |
| SchemaQueries.EveryComposition | src/lib/json-schema/json-schema-queries.ts:16-24 | `every(isObjectCompositionSchema)` is true exactly when every child is. Otherwise the first child that is not decides, with its false or its error. |
| SchemaQueries.HasOneOfConcat | src/lib/json-schema/json-schema-queries.ts:27-37 | `hasOneOf` (`HasOneOf`, with `SchemaHasOneOf` for one schema) is false on an empty list and distributes over concatenation with `or`. |
| SchemaBuilder.ArraySchema | src/lib/json-schema/json-schema-builder.ts:24-30 | `type: "array"` and the item schema, each overridden by an option of the same key. The keys are exactly those plus the options'. |
| SchemaBuilder.KeyNames | src/lib/json-schema/json-schema-builder.ts:48 | `Object.keys(properties)`: one name per property, in order. |
| SchemaBuilder.ObjectSchema | src/lib/json-schema/json-schema-builder.ts:37-56 | An object schema whose `additionalProperties` defaults to false and whose `required` defaults to all property names. Exactly four keys. |
| SchemaBuilder.ObjectSchemaKeys | src/lib/json-schema/json-schema-builder.ts:50-55 | The object builder's result has exactly the keys type, additionalProperties, required and properties. |
| SchemaBuilder.ValueSchemaGet | src/lib/json-schema/json-schema-builder.ts:62-97 | In a value builder's result, an option overrides the builder's field of the same key. |
| SchemaBuilder.TypedSchema | src/lib/json-schema/json-schema-builder.ts:62-81 | `integer`, `number` and `string` (`IntegerSchema`, `NumberSchema`, `StringSchema`): the given `type` unless overridden, `nullable` false when no options are given, and not an object schema unless an option adds `properties`. |
| SchemaBuilder.EnumerationSchema | src/lib/json-schema/json-schema-builder.ts:83-89 | A string schema with `enum` the values unless overridden, `nullable` false when no options are given, and not an object schema unless an option adds `properties`. |
| SchemaBuilder.DatetimeSchema | src/lib/json-schema/json-schema-builder.ts:91-97 | A string schema with format "date-time" unless overridden, `nullable` false when no options are given, and not an object schema unless an option adds `properties`. |
| SchemaBuilder.OneOfSchema | src/lib/json-schema/json-schema-builder.ts:127-131 | Exactly one key, `oneOf`, holding the alternatives. |
| SchemaBuilder.AllowAdditionalProperties | src/lib/json-schema/json-schema-builder.ts:148-167 | Every object schema reachable through `allOf`/`oneOf` comes out open, and every other field keeps its value. Non-object leaves are returned unchanged, and whether a `oneOf` is present is kept. |
| SchemaBuilder.AllowIdempotent | src/lib/json-schema/json-schema-builder.ts:148-167 | Opening twice is opening once. |
| SchemaBuilder.Open | src/lib/json-schema/json-schema-builder.ts:159-163 | `{...s, additionalProperties: true}` sets that one field and keeps every other. |
| SchemaBuilder.AllowInChildren | src/lib/json-schema/json-schema-builder.ts:149-158 | Rewriting the children of `allOf` (or `oneOf`) keeps their number and every other field, and leaves the schema open. |
| SchemaBuilder.AllowInChildrenIdempotent | src/lib/json-schema/json-schema-builder.ts:149-158 | Rewriting the children a second time changes nothing. |
| SchemaBuilder.MergedPropertiesLookup | src/lib/json-schema/json-schema-builder.ts:134 | A merged property is that of the last schema defining it. A name no schema defines is absent. |
| SchemaBuilder.MergedProperties | src/lib/json-schema/json-schema-builder.ts:134 | `Object.assign({}, ...properties)` yields an object with distinct keys. |
| SchemaBuilder.OverlaidRequired | src/lib/json-schema/json-schema-builder.ts:135 | `Object.assign([], ...required)` overlays by slot: slot `i` holds the last list long enough to have one. |
| SchemaBuilder.UnitedRequired | src/lib/json-schema/json-schema-builder.ts:135 | The union of the lists: every required name, exactly once. |
| SchemaBuilder.MergeObjectSchemasAsWritten | src/lib/json-schema/json-schema-builder.ts:133-146 | An object schema with the merged properties and the overlaid `required`. `additionalProperties` and `nullable` come from the first schema. |
| SchemaBuilder.MergeObjectSchemas | src/lib/json-schema/json-schema-builder.ts:133-146 | The same, with `required` the union. |
| SchemaBuilder.WrapAllOf | src/lib/json-schema/json-schema-builder.ts:121-124 | `allOf` holds each schema opened, with `unevaluatedProperties: false`. The whole is open, and it has a `oneOf` exactly when the inputs do. |
| SchemaBuilder.AllOf | src/lib/json-schema/json-schema-builder.ts:104-125 | Corrected merge. It merges exactly when every schema has properties (`IsObjectSchema`) and they agree on `additionalProperties` and `nullable` (`Mergeable`). The result is then `MergeObjectSchemas`: the merged properties with later definitions winning, the first schema's `additionalProperties` and `nullable`, and the union of `required`. Otherwise it throws exactly when a `oneOf` is reachable, and else it is `WrapAllOf`, whose `allOf` children are the schemas opened one by one. |
| SchemaBuilder.AllOfAsWritten | src/lib/json-schema/json-schema-builder.ts:104-125 | As written: the same branches, error and wrap. The merge is `MergeObjectSchemasAsWritten`, with the same properties, `additionalProperties` and `nullable`, and `required` overlaid by slot. |
| SchemaBuilder.AllOfDiffersOnlyInRequired | src/lib/json-schema/json-schema-builder.ts:104-146 | The two versions throw on the same schemas and wrap the same way. Their merges agree on type, properties, `additionalProperties` and `nullable`. |
| SchemaBuilder.DefaultObjectsMerge | src/lib/json-schema/json-schema-builder.ts:105-110 | Two default object schemas take the merge branch of both versions of `allOf`, each with its own merge. |
| SchemaBuilder.TwoDefaultObjects | src/lib/json-schema/json-schema-builder.ts:37-56 | `[object({a, b}), object({c})]` are schemas requiring `[a, b]` and `[c]`. |
| SchemaBuilder.DefaultObjectsMergeAsWritten | src/lib/json-schema/json-schema-builder.ts:135 | As written, `allOf(object({a, b}), object({c}))` requires only `[c, b]`. |
| SchemaBuilder.DefaultObjectsMergeCorrected | src/lib/json-schema/json-schema-builder.ts:135 | With the union, the corrected `allOf` requires `a`, `b` and `c`. |
| SchemaBuilder.OverlayLosesName | src/lib/json-schema/json-schema-builder.ts:135 | Overlaying `[a, b]` with `[c]` gives `[c, b]`. |
| SchemaBuilder.UnionKeepsNames | src/lib/json-schema/json-schema-builder.ts:135 | The union of `[a, b]` and `[c]` holds all three. |
| SchemaBuilder.OverlaidRequiredLosesName | src/lib/json-schema/json-schema-builder.ts:133-146 | Any two schemas requiring `[a, b]` and `[c]`, merged as written, require `[c, b]`. |
| SchemaBuilder.UnitedRequiredKeepsNames | src/lib/json-schema/json-schema-builder.ts:133-146 | The corrected merge of the same two schemas requires all three names. |
| LegacySchemaBuilder.MatchingAdditionalProperties | src/lib/json-schema-builder.ts:124-133 | `haveMatchingAdditionalPropertiesValue`, for two or more schemas, holds exactly when every schema has `additionalProperties` and all values agree. A single schema passes. |
| LegacySchemaBuilder.MergeAsWritten | src/lib/json-schema-builder.ts:95-105 | Merged properties and overlaid `required`, `additionalProperties` from the first schema, no `nullable`. |
| LegacySchemaBuilder.Merge | src/lib/json-schema-builder.ts:95-105 | The same, with `required` the union. |
| LegacySchemaBuilder.InObject | src/lib/json-schema-builder.ts:136-153 | The rewrite of one schema; its only error is the `anyOf` message. |
| LegacySchemaBuilder.SetAdditional | src/lib/json-schema-builder.ts:137-141 | `{...schema, additionalProperties: true}` sets that one field and keeps every other. |
| LegacySchemaBuilder.OneOfClosed | src/lib/json-schema-builder.ts:142-146 | Exactly the keys `oneOf` and `unevaluatedProperties` (false), and open when its alternatives are. |
| LegacySchemaBuilder.InOneOf | src/lib/json-schema-builder.ts:142-146 | The `oneOf` branch yields a schema or the `anyOf` error. |
| LegacySchemaBuilder.InObjectOnObject | src/lib/json-schema-builder.ts:137-141 | A schema typed "object" gets `additionalProperties: true` and keeps every other field. |
| LegacySchemaBuilder.InObjectOnOneOf | src/lib/json-schema-builder.ts:142-146 | Any other `oneOf` becomes exactly `{oneOf: rewritten alternatives, unevaluatedProperties: false}`, failing when an alternative fails. |
| LegacySchemaBuilder.InObjectOtherwise | src/lib/json-schema-builder.ts:147-152 | `anyOf` throws, and anything else is returned unchanged. |
| LegacySchemaBuilder.InArray | src/lib/json-schema-builder.ts:155-157 | Succeeds exactly when every child's rewrite does, and then holds those rewrites in order. |
| LegacySchemaBuilder.RecursivelyAllowAdditionalProperties | src/lib/json-schema-builder.ts:135-160 | The same for the top-level list. |
| LegacySchemaBuilder.InObjectOpens | src/lib/json-schema-builder.ts:135-160 | Every object schema the rewrite reaches comes out open. |
| LegacySchemaBuilder.InObjectsOpen | src/lib/json-schema-builder.ts:155-157 | A successfully rewritten list is open throughout. |
| LegacySchemaBuilder.InObjectIdempotent | src/lib/json-schema-builder.ts:135-160 | Rewriting a rewritten schema changes nothing. |
| LegacySchemaBuilder.OneOfIdempotent | src/lib/json-schema-builder.ts:142-146 | Rewriting a rewritten `oneOf` changes nothing. |
| LegacySchemaBuilder.AllOf | src/lib/json-schema-builder.ts:90-112 | Corrected merge. Throws exactly on an empty list. It merges exactly when all schemas are typed "object" (`AreAllObjectSchemas`) with matching `additionalProperties`. The result is then `Merge`: the merged properties, the first schema's `additionalProperties`, no `nullable`, and the union of `required`. Otherwise it is `AllOfClosed` of the rewritten schemas, child k being `InObject(schemas[k])`, all open, and the rewrite's error propagates. |
| LegacySchemaBuilder.AllOfAsWritten | src/lib/json-schema-builder.ts:90-112 | As written: the same branches, errors and wrap. The merge is `MergeAsWritten`, with the same properties and `additionalProperties`, and `required` overlaid by slot. |
| LegacySchemaBuilder.AllOfDiffersOnlyInRequired | src/lib/json-schema-builder.ts:90-112 | The two versions fail on the same lists and wrap the same way. Their merges agree on type, properties, `additionalProperties` and `nullable`. |
| LegacySchemaBuilder.AllOfClosed | src/lib/json-schema-builder.ts:106-111 | `allOf` holds the children, with `unevaluatedProperties: false`. |
| LegacySchemaBuilder.DefaultObjectsMerge | src/lib/json-schema-builder.ts:95 | Two default object schemas take the merge branch of both versions of `allOf`. |
| LegacySchemaBuilder.DefaultObjectsMergeLosesName | src/lib/json-schema-builder.ts:97 | As written, `allOf(object({a, b}), object({c}))` requires only `[c, b]`. |
| LegacySchemaBuilder.DefaultObjectsMergeKeepsNames | src/lib/json-schema-builder.ts:97 | The corrected merge requires all three names. |
| LegacySchemaBuilder.MergeAsWrittenLosesName | src/lib/json-schema-builder.ts:97 | Any two schemas requiring `[a, b]` and `[c]`, merged as written, require `[c, b]`. |
| LegacySchemaBuilder.MergeKeepsNames | src/lib/json-schema-builder.ts:97 | The corrected merge of the same two schemas requires all three names. |
| JsonValues.Put | src/lib/json-schema/json-schema-builder.ts:160-163 | `{...s, [key]: v}`: the key reads `v`, other keys are unchanged, and keys stay unique. |
| JsonValues.PutKeys | src/lib/json-schema/json-schema-builder.ts:160-163 | An existing key keeps its place, and a new one goes last (insertion order; integer-like keys are not ordered first, see "## Left out"). |
| JsonValues.SpreadLookup | src/lib/json-schema/json-schema-builder.ts:28 | After a spread, a key reads the source's value if present, else the target's. |
| JsonValues.Spread | src/lib/json-schema/json-schema-builder.ts:28 | Spreading into an object with distinct keys keeps the keys distinct. |
| JsonValues.SpreadAllLookup | src/lib/json-schema/json-schema-builder.ts:134 | `Object.assign({}, ...sources)`: a key reads the last source holding it. |
| JsonValues.OverlayTwo | src/lib/json-schema/json-schema-builder.ts:135 | `Object.assign` on two arrays: the source's slots win, and the result is as long as the longer array. |
| JsonValues.PutPut | src/lib/json-schema/json-schema-builder.ts:160-163 | A second put under the same key overrides the first. |
| JsonValues.Overlay | src/lib/json-schema/json-schema-builder.ts:135 | `Object.assign([], ...arrays)` is as long as the longest array, and slot `i` comes from the last array long enough. |
| JsonValues.UnionAll | src/lib/json-schema/json-schema-builder.ts:135 | Every item of every list, once each. |
| StrokePatternStyle.ValidateStrokePatternStyle | src/lib/types/stroke-pattern-style.ts:9-16 | Valid exactly when there are at least two items and an even count. Fewer than two gives the too-short error first, and an odd count the other. |
| StrokePatternStyle.OnlyLengthMatters | src/lib/types/stroke-pattern-style.ts:9-16 | The verdict depends only on the length. |
| StrokePatternStyle.SingleItemIsTooShort | src/lib/types/stroke-pattern-style.ts:10-12 | One item is reported as too short, although it is also odd. |
| ObjectExtensions.Omit | src/lib/util/object-extensions.ts:4-7 | Keeps exactly the entries whose key is not omitted, and adds none. |
| ObjectExtensions.WithoutConcat | src/lib/util/object-extensions.ts:6 | The filter keeps entry order. |
| ObjectExtensions.WithoutNothing | src/lib/util/object-extensions.ts:6 | Omitting no key gives the same entries back. |
| ObjectExtensions.OmitVariadic | src/lib/util/object-extensions.ts:1-5 | The variadic overload removes only its first key, and nothing when given none. |
| ObjectExtensions.VariadicKeepsSecondKey | src/lib/util/object-extensions.ts:1-5 | `omit(o, a, b)` keeps `b`, where `omit(o, [a, b])` does not. |
| MapExtensions.TransformValues | src/lib/util/map-extensions.ts:1-6 | Same keys in the same order, each value transformed. |
| MapExtensions.KeysKept | src/lib/util/map-extensions.ts:5 | The result has the same keys in the same order. |
| MapExtensions.GetTransformed | src/lib/util/map-extensions.ts:5 | A lookup in the result is the transformed lookup in the input. |
| MapExtensions.IdentityKeepsEntries | src/lib/util/map-extensions.ts:5 | The identity transform gives back the same entries. |
| AvlTree.New | src/rust/avl_tree.rs:24-26 | A new tree has an empty vector. |
| AvlTree.Left | src/rust/avl_tree.rs:58-60 | The left child `2i+1` is odd, larger than its parent, and has that parent. |
| AvlTree.Right | src/rust/avl_tree.rs:62-64 | The right child `2i+2` is even, larger than its parent, and has that parent. |
| AvlTree.FindInsertIndexSpec | src/rust/avl_tree.rs:34-56 | An empty vector panics on the index `self.data[0]`, and a returned index lies past the end of the vector. |
| AvlTree.PathShape | src/rust/avl_tree.rs:39-53 | The visited slots strictly increase, each is the child the comparison picks, and all but the last are occupied. |
| AvlTree.SearchOutcome | src/rust/avl_tree.rs:34-56 | `None` exactly when an Equal value lies on the path, and a panic exactly when the path meets a hole. Otherwise the index is the child the last slot points to. |
| AvlTree.NoDuplicateWithoutEqual | src/rust/avl_tree.rs:13-15 | No Equal value in the tree means no duplicate is reported. |
| AvlTree.FullTreeNeverPanics | src/rust/avl_tree.rs:38 | A vector without holes never panics. |
| AvlTree.FindInsertIndex | src/rust/avl_tree.rs:34-56 | The loop computes `FindInsertIndexSpec`. |
| AvlTree.Insert | src/rust/avl_tree.rs:30-32 | `insert` leaves the tree as it was, and panics exactly when the search does. |

## Left out

- I/O and the outside world are left out:
  - database queries and the HTTP client are not modelled;
  - `printChangesList` and `console.log` are left out;
  - `client.patchWorld`, and the remote synchroniser's logging `upload`, are modelled as a ghost-free `uploads` field that records each batch;
  - clocks are integer milliseconds passed in as `now`.
- Numbers are simplified:
  - coordinates and JSON numbers are integers, with no floating point;
  - both `shouldUpload`s keep the division on reals, `(now - lastUploadedAt) / 1000.0`, and their contracts state the equivalent comparison on integer milliseconds.
- JavaScript object semantics are simplified:
  - `===` on deltas and schemas is structural equality;
  - a key whose value is `undefined` is an absent key;
  - the deep copy `JSON.parse(JSON.stringify(…))` in the legacy `inObject` is value semantics;
  - keys are kept in plain insertion order. JavaScript lists integer-like keys such as "0" first, in ascending order, and `Put`, `Spread`, `SpreadAll`, `Omit` and `KeyNames` do not model that. The order stated by `JsonValues.PutKeys` and `SchemaBuilder.KeyNames` holds for the other keys.
- The TypeScript types become preconditions. `IsSchema` stands for the `ValueSchema` type the builders receive, and `UniqueKeys` for the fact that a JavaScript object cannot hold a key twice.
- The list-level `remove`, `clear`, `isEmpty`, `popHead`, `popTail`, `getNext` and `getPrevious` are called but not defined in src/lib/types/linked-list.ts. They are modelled from their call sites, with the `tail` handling of `Node.remove` callers:
  - `remove` moves `head` past the node, and a `tail` on the node to its predecessor, or to its successor when it has none;
  - `popTail` finds the last node by walking from `head`, since `tail` may have been left behind;
  - `isEmpty` is read as a property, i.e. as a getter;
  - `getNext`/`getPrevious` require that `to` is reachable from `from`, which their callers guarantee.
- `haveMatchingValues` from src/lib/util/object-extensions.ts is not part of this model. `SchemaBuilder.HaveMatchingValues` states the behaviour its call site relies on: every schema agrees with the first on the keys, with absent counting as a value.
- Deltas.SetPointPositions.Apply: the thrown message omits the identifier that `getPointOrThrow` interpolates into it. `ApplyAsWritten` gives the message in full for a temporary identifier, and omits the id for a missing one.
- Deltas.Change.Undo, Deltas.Change.Redo and the histories built on them apply deltas with the corrected lookup (`ApplyItems`). As written, any change that moves an unsaved point throws at that point (`ApplyItemsAsWritten`).
- Changes.ChangesManager.Undo: the cursor operations require the remote copy to be in sync on entry. After a delta throws mid-way the pair can fall out of sync, and the model does not follow it further.
- Changes.ChangesManager.SetCurrent and Changes.ChangesManager.SetCurrentAsWritten: the same sync precondition as `Undo`. The source's `setCurrent` also runs from the out-of-sync state a thrown delta leaves behind, which the model does not follow.
- Changes.ChangesManager.Redo: the same sync precondition as `Undo`.
- RemoteSync.RemoteChangesManager.GetDeltasBehind is modelled as written: the backward walk starts at the node before the remote one, so the remote node's own change is not sent back. The `Ahead` position is reached only after a delta throws, which the changes manager model does not follow.
- The TODO in changes-manager.ts about capturing deltas for pruned changes is not implemented in the source and not modelled.
- OrmPolygons.ConstructPolygonWithIdReferences: a walk longer than the number of rows is reported as `RunsForever` instead of looping. `OrmPolygons.WalkRunsForever` proves the source's loop indeed never stops then.
- AvlTree.Insert: the Rust `usize` overflow of `2 * index + 2` is not modelled, `T: Ord` is a comparison function passed in, and the unused `height` field is kept but never read.
- SchemaQueries.IsObjectCompositionSchema has no contract of its own. Its behaviour on children is stated by `SchemaQueries.EveryComposition`.
- SchemaQueries.HasOneOf, SchemaQueries.SchemaHasOneOf, SchemaQueries.IsObjectSchema, SchemaBuilder.Mergeable, LegacySchemaBuilder.AreAllObjectSchemas, LegacySchemaBuilder.HaveMatchingAdditionalPropertiesValue and LegacySchemaBuilder.Mergeable are predicates that transcribe the source's checks, with no contract of their own. The rows of `HasOneOfConcat`, `MatchingAdditionalProperties` and the `AllOf` functions state what they decide.
- Changes.ChangesManager.SetCurrentAsWritten: requires, when the current node is undone, that the list's `tail` is not before the last applied node. Every history the manager builds meets this, and it is what `getDeltasAhead` needs to reach the tail. Other histories are not followed.
- The remaining files of the repository (views, drawing, controllers for modes, the other deltas, world loaders and writers) are not part of this model.

## Findings

| source | as written | input that shows it | evidently intended | confidence | as-written member | corrected member |
|---|---|---|---|---|---|---|
| src/lib/controllers/editor-world.ts:91-96 | `getIdentifierProperty` names `temporaryCuid`, but `getIdentifier` (base-delta.ts:62) stores the CUID under `temporaryCUID`, so `getPointOrThrow` compares against `undefined` and never finds an unsaved point. | moving a point made by world-factory.ts:85, `{id: -1, temporaryCuid: "abc"}`: `apply` throws "Point with temporaryCuid undefined was not found" | find the point whose `temporaryCuid` is the identifier's CUID | high, not executed | Deltas.TemporaryPointNotFoundAsWritten | Deltas.ApplyItems |
| src/lib/types/linked-list.ts:15-17 | `push` on a non-empty list inserts after `tail` but never moves `tail`. The local history masks this, because its `removeAfter` resets `tail` first. `allAfter`, the delta queue and the changes manager's pruning do not. | three pushes 0, 1, 2 onto a new list iterate as [0, 2, 1]; `allAfter` over v1, v2, v3 gives [v1, v3, v2]; three recorded changes are queued [a, c, b] | append: iteration order is insertion order | high, not executed | LinkedList.PushThreeAsWritten | LinkedList.PushThree |
| src/lib/controllers/changes-manager.ts:76-79 | `removeUndoneChanges` reads `previous` after `remove` has cleared the node's links, so `current` becomes null and the undone changes after it survive. | three changes, two undos, a new change: list [c1, c4, c3] with c3 still redoable, and its forward delta is uploaded again on redo | prune every undone change, as change-history.ts:53-56 does: [c1, c4] | high, not executed | Changes.PruneOnNewChangeAsWritten | Changes.PruneOnNewChange |
| src/lib/controllers/remote-delta-queue.ts:31-39 | `undo` tests whether the HEAD is the change's forward delta but pops the TAIL. `redo` (41-49) tests and pops the head. | record a, record b, undo b, undo a: queue [a.forward, b.backward] | cancel against the delta queued last: the queue ends empty | medium, not executed | DeltaQueue.RecordTwoUndoTwoAsWritten | DeltaQueue.RecordTwoUndoTwo |
| src/lib/orm/network-loader.ts:97 | `edge.fromNodeId in nodeRowsInNetwork` tests array indices, not node ids. | one node with id 10 and an edge from it: the edge is dropped | keep the edges that leave one of the network's nodes | high, not executed | OrmNetworks.EdgeFromOwnNodeDroppedAsWritten | OrmNetworks.ConstructNetworkWithIdReferences |
| src/lib/json-schema/json-schema-builder.ts:135 | `Object.assign([], ...required)` overlays the `required` arrays by index. | allOf(object({a, b}), object({c})) requires [c, b] | the union: a, b and c are all required | high, not executed | SchemaBuilder.DefaultObjectsMergeAsWritten | SchemaBuilder.DefaultObjectsMergeCorrected |
| src/lib/json-schema-builder.ts:97 | The same index overlay in the legacy builder's merge. | allOf(object({a, b}), object({c})) requires [c, b] | the union of the required names | high, not executed | LegacySchemaBuilder.DefaultObjectsMergeLosesName | LegacySchemaBuilder.DefaultObjectsMergeKeepsNames |
