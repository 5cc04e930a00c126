# In-app message reconciliation and display selection

A Dafny model of the in-app message core of the Iterable Android SDK. It covers `IterableInAppManager` and the contract of the message store it relies on.

- **Message store.** An ordered collection of in-app messages with unique ids. The file storage also backs it with a persisted snapshot, and reloading reads that snapshot back. The test `IterableInAppFileStorageTest.testInAppPersistence` exercises add, look-up, flag setters, save, remove and reload.
- **Payload handling.** The payload of an in-app fetch becomes the remote list. A null or empty payload and a parse error leave the store alone. A payload without the in-app array yields an empty list. Entries that fail to decode are dropped.
- **Sync reconciler** (`syncWithRemoteQueue`). Remote messages whose id is not stored are appended; a repeated remote id only counts its first occurrence. Then every stored message whose id is absent from the remote list is removed, and a selection pass follows.
- **Selection pass** (`processMessages`). It runs only in the foreground and when no in-app notification is showing. It walks the store in order and asks the display handler about each unprocessed message. It marks that message processed whatever the answer, and stops at the first `SHOW`, which it hands to display.
- **Display and click rules** (`showMessage`). Display needs a current activity and no notification already on screen. A consume request goes to the server when display succeeded, whether or not the caller asked to consume; the model follows the evidently intended rule instead (see "## Findings"). A click whose data starts with `itbl://` dispatches a custom action; anything else, including no data, opens a URL.

Modules:

- `InAppMessages` (messages.dfy): the record and the keyed-sequence operations.
- `InAppStorage` (storage.dfy): the `Disk` and `MessageStore` classes.
- `InAppPersistenceScenario` (persistence_scenario.dfy): the persistence test, written as verified methods.
- `InAppSync` (sync.dfy): the reconciled store as a function, plus its properties.
- `InAppSelection` (selection.dfy): the pass as functions, plus its properties.
- `InAppPayload` (payload.dfy): the payload-to-list step.
- `InAppActions` (actions.dfy): the click and consume rules.
- `InAppManager` (manager.dfy): the `Manager` class. Its methods follow the Java loops and are proved against the functions above.

Inputs that come from outside the core:

- The display handler is the `handler: Message -> Response` function.
- Parsing JSON is the `parse` function.
- The platform's answer to a display request is `renders`.
- Foreground state and the presence of a current activity are method parameters.
- The handler consultations and the consume requests sent to the server are recorded in the `consulted` and `consumeRequests` fields.

Two points of the code's own behaviour that the model keeps:

- Every message the handler is asked about is marked processed (IterableInAppManager.java:117) before its answer is checked (:118), so messages answered with something other than `SHOW` are marked as well. `ThreeMessagePass` states the outcome for three unprocessed messages of which only the second is answered `SHOW`: the first two are marked processed and the third is untouched.
- `removeMessage` is given the stored record itself (:102, test :37). The model removes by id, which is the same thing in a store with unique ids.

## Model

| member | source | states |
|---|---|---|
| `InAppMessages.SetFlag` | iterableapi/src/test/java/com/iterable/iterableapi/IterableInAppFileStorageTest.java:27-28 | a setter changes only the named flag; id, content and the other flag stay as they were |
| `InAppMessages.Lookup` | iterableapi/src/test/java/com/iterable/iterableapi/IterableInAppFileStorageTest.java:26 | look-up by id finds a record exactly when some stored record has that id, and the record it finds has that id and is stored |
| `InAppMessages.LookupFirst` | iterableapi/src/test/java/com/iterable/iterableapi/IterableInAppFileStorageTest.java:26 | look-up returns the record at the first position that holds the id |
| `InAppMessages.LookupUnique` | iterableapi/src/test/java/com/iterable/iterableapi/IterableInAppFileStorageTest.java:26 | in a store with unique ids, `getMessage(m.id)` returns the stored `m` itself |
| `InAppMessages.Without` | iterableapi/src/test/java/com/iterable/iterableapi/IterableInAppFileStorageTest.java:37-38 | `removeMessage` on the records: every record with the given id is dropped and the rest keep their order; its meaning is proved in `WithoutSpec` and `WithoutMiddle` |
| `InAppMessages.WithoutSpec` | iterableapi/src/test/java/com/iterable/iterableapi/IterableInAppFileStorageTest.java:37-38 | removing an id keeps exactly the records with other ids, removes that id from the id set, and keeps ids unique |
| `InAppMessages.WithoutMiddle` | iterableapi/src/main/java/com/iterable/iterableapi/IterableInAppManager.java:100-103 | removing the one record with a given id leaves every other record in its old order |
| `InAppMessages.KeepIds` | iterableapi/src/main/java/com/iterable/iterableapi/IterableInAppManager.java:100-104 | what the removal loop leaves: the records whose id is a remote id, in store order; its meaning is proved in `KeepIdsSpec` and `KeepIdsLookup` |
| `InAppMessages.KeepIdsSpec` | iterableapi/src/main/java/com/iterable/iterableapi/IterableInAppManager.java:100-104 | the filtered store holds exactly the records whose id is in the given set, and keeps ids unique |
| `InAppMessages.KeepIdsLookup` | iterableapi/src/main/java/com/iterable/iterableapi/IterableInAppManager.java:100-104 | after filtering, look-up of a kept id finds the same record as before, and look-up of any other id finds nothing |
| `InAppMessages.WithFlag` | iterableapi/src/main/java/com/iterable/iterableapi/IterableInAppManager.java:117 | `setProcessed`/`setConsumed` applied to the stored record with an id; its meaning is proved in `WithFlagSpec` |
| `InAppMessages.WithFlagSpec` | iterableapi/src/main/java/com/iterable/iterableapi/IterableInAppManager.java:117 | setting a flag on the stored record with an id keeps length, ids and their uniqueness; look-up of that id finds the updated record, and every other id finds what it found before |
| `InAppMessages.AddMissing` | iterableapi/src/main/java/com/iterable/iterableapi/IterableInAppManager.java:93-99 | what the adding loop leaves: each remote message whose id is not stored yet is appended, in remote order; its meaning is proved in `AddMissingSpec`, `AddMissingLookup`, `AddMissingAppend` and `AddMissingDistinct` |
| `InAppMessages.AddMissingSpec` | iterableapi/src/main/java/com/iterable/iterableapi/IterableInAppManager.java:93-99 | adding the unseen remote messages extends the store (old records first, unchanged), invents no record, stores the union of both id sets, and keeps ids unique |
| `InAppMessages.AddMissingLookup` | iterableapi/src/main/java/com/iterable/iterableapi/IterableInAppManager.java:96-98 | after adding, an id that was stored keeps its local record; any other id gets its first remote message |
| `InAppMessages.AddMissingDistinct` | iterableapi/src/main/java/com/iterable/iterableapi/IterableInAppManager.java:94-99 | when all ids are distinct, adding appends every incoming message in order |
| `InAppMessages.AddMissingAppend` | iterableapi/src/main/java/com/iterable/iterableapi/IterableInAppManager.java:94-99 | the adding loop over a remote list split in two is the loop over the first part followed by the loop over the second, so later messages are appended after earlier ones |
| `InAppStorage.Disk.Empty` | iterableapi/src/test/java/com/iterable/iterableapi/IterableInAppFileStorageTest.java:19 | a device on which nothing has been saved holds no document |
| `InAppStorage.Loaded` | iterableapi/src/test/java/com/iterable/iterableapi/IterableInAppFileStorageTest.java:19-22 | a store loaded from a missing or unreadable document is empty, and a loaded store always has unique ids |
| `InAppStorage.LoadedFromSaved` | iterableapi/src/test/java/com/iterable/iterableapi/IterableInAppFileStorageTest.java:31-32 | loading a saved document restores its ids and invents no record |
| `InAppStorage.LoadSaved` | iterableapi/src/test/java/com/iterable/iterableapi/IterableInAppFileStorageTest.java:29-35 | saving a store with unique ids and loading it back gives the same records in the same order, contents and flags included |
| `InAppStorage.MessageStore.InMemory` | iterableapi/src/main/java/com/iterable/iterableapi/IterableInAppManager.java:27 | the manager's in-memory storage starts empty and has no persisted document |
| `InAppStorage.MessageStore.Load` | iterableapi/src/test/java/com/iterable/iterableapi/IterableInAppFileStorageTest.java:19 | constructing a file storage loads what the document holds |
| `InAppStorage.MessageStore.GetMessage` | iterableapi/src/test/java/com/iterable/iterableapi/IterableInAppFileStorageTest.java:26 | `getMessage(id)` returns a stored record with that id, or nothing when no such record exists |
| `InAppStorage.MessageStore.AddMessage` | iterableapi/src/test/java/com/iterable/iterableapi/IterableInAppFileStorageTest.java:24-25 | adding a message with a new id appends it, keeps ids unique and writes the document |
| `InAppStorage.MessageStore.RemoveMessage` | iterableapi/src/test/java/com/iterable/iterableapi/IterableInAppFileStorageTest.java:37-40 | removing drops the record with that id and writes the document at once, so the removal survives a reload without `save` |
| `InAppStorage.MessageStore.SetFlag` | iterableapi/src/test/java/com/iterable/iterableapi/IterableInAppFileStorageTest.java:27-28 | a flag setter on a stored message changes that record in memory only |
| `InAppStorage.MessageStore.Save` | iterableapi/src/test/java/com/iterable/iterableapi/IterableInAppFileStorageTest.java:29 | `save` writes the current records to the document and changes nothing in memory |
| `InAppPersistenceScenario.InAppPersistence` | iterableapi/src/test/java/com/iterable/iterableapi/IterableInAppFileStorageTest.java:17-41 | the whole test: after add, update, save, reload, remove and a second reload, the store and the document are empty |
| `InAppPersistenceScenario.AddUpdateSave` | iterableapi/src/test/java/com/iterable/iterableapi/IterableInAppFileStorageTest.java:19-29 | a fresh store is empty; after one add it holds that message alone and finds it by id; after the setters and `save`, the document holds the message with both flags true |
| `InAppPersistenceScenario.ReloadAndRemove` | iterableapi/src/test/java/com/iterable/iterableapi/IterableInAppFileStorageTest.java:31-40 | the reloaded store holds exactly the saved message, flags and content equal; removing it empties both the store and the document |
| `InAppPersistenceScenario.RemoveOnly` | iterableapi/src/test/java/com/iterable/iterableapi/IterableInAppFileStorageTest.java:37-38 | removing the only message by its id leaves the store empty |
| `InAppSync.Reconciled` | iterableapi/src/main/java/com/iterable/iterableapi/IterableInAppManager.java:92-104 | the store after both loops of a sync: the unseen remote messages appended, then the records with no remote id dropped; its meaning is proved in the `Sync…` lemmas below |
| `InAppSync.SyncStoresRemoteIds` | iterableapi/src/main/java/com/iterable/iterableapi/IterableInAppManager.java:92-104 | after a sync, the set of stored ids equals the set of remote ids |
| `InAppSync.SyncKeepsIdsUnique` | iterableapi/src/main/java/com/iterable/iterableapi/IterableInAppManager.java:92-104 | a sync keeps stored ids unique, even when the remote list repeats an id |
| `InAppSync.SyncRecordFor` | iterableapi/src/main/java/com/iterable/iterableapi/IterableInAppManager.java:93-104 | for every id, the synced store holds no record for an id the remote list lacks, the unchanged local record for an id that was stored, and the first remote message with that id for any other id |
| `InAppSync.SyncKeepsLocalRecord` | iterableapi/src/main/java/com/iterable/iterableapi/IterableInAppManager.java:96-98 | a stored message that the remote list still names stays in the store as it was, with its processed and consumed flags |
| `InAppSync.SyncAddsFirstOccurrence` | iterableapi/src/main/java/com/iterable/iterableapi/IterableInAppManager.java:94-99 | the first occurrence of an unseen remote id is added, and it is the only record with that id afterwards |
| `InAppSync.SyncRecordsComeFromInputs` | iterableapi/src/main/java/com/iterable/iterableapi/IterableInAppManager.java:92-104 | every record after a sync was either stored before or fetched |
| `InAppSync.SyncKeepsLocalOrder` | iterableapi/src/main/java/com/iterable/iterableapi/IterableInAppManager.java:100-104 | the surviving local records come first, in their old order |
| `InAppSync.SyncDropsOmitted` | iterableapi/src/main/java/com/iterable/iterableapi/IterableInAppManager.java:100-104 | a message whose id is absent from the remote list is not in the store after a sync |
| `InAppSync.SyncIdempotent` | iterableapi/src/main/java/com/iterable/iterableapi/IterableInAppManager.java:92-104 | syncing a second time with the same remote list changes nothing |
| `InAppSync.AddMissingNoNew` | iterableapi/src/main/java/com/iterable/iterableapi/IterableInAppManager.java:96-98 | when every remote id is already stored, the adding loop adds nothing |
| `InAppSync.RepeatedIdsAddNothing` | iterableapi/src/main/java/com/iterable/iterableapi/IterableInAppManager.java:94-99 | remote messages whose ids were already stored or already seen earlier in the remote list add nothing, so the order built so far is left alone |
| `InAppSync.KeepIdsAll` | iterableapi/src/main/java/com/iterable/iterableapi/IterableInAppManager.java:100-104 | when every stored id is in the remote list, the removal loop removes nothing |
| `InAppSelection.FirstShowFrom` | iterableapi/src/main/java/com/iterable/iterableapi/IterableInAppManager.java:114-121 | the pass stops at the first unprocessed message the handler wants shown: that message qualifies, and none before it does; when none is found, no message qualifies |
| `InAppSelection.Unprocessed` | iterableapi/src/main/java/com/iterable/iterableapi/IterableInAppManager.java:115 | the handler is asked about exactly the messages not yet processed |
| `InAppSelection.AfterPass` | iterableapi/src/main/java/com/iterable/iterableapi/IterableInAppManager.java:113-123 | the store after one pass: the messages up to and including the shown one, or all when none is shown, marked processed; its meaning is proved in `PassMarksConsulted` and `PassStopsAtFirstShow` |
| `InAppSelection.Consulted` | iterableapi/src/main/java/com/iterable/iterableapi/IterableInAppManager.java:115-116 | the messages the handler is asked about during one pass, in the order asked; its meaning is proved in `ConsultsExactlyUnprocessed` and `ConsultedBeforeShowSkipped` |
| `InAppSelection.Shown` | iterableapi/src/main/java/com/iterable/iterableapi/IterableInAppManager.java:118-120 | the message handed to display, already marked processed, or none; its meaning is proved in `PassStopsAtFirstShow` |
| `InAppSelection.ConsultsExactlyUnprocessed` | iterableapi/src/main/java/com/iterable/iterableapi/IterableInAppManager.java:114-116 | a message is consulted exactly when it lies up to the stopping point and is unprocessed, so processed messages are skipped |
| `InAppSelection.PassMarksConsulted` | iterableapi/src/main/java/com/iterable/iterableapi/IterableInAppManager.java:115-117 | after a pass, every consulted message is marked processed whatever the answer; already-processed messages are unchanged; ids and contents are kept |
| `InAppSelection.PassStopsAtFirstShow` | iterableapi/src/main/java/com/iterable/iterableapi/IterableInAppManager.java:118-121 | nothing before the stopping point was selected; the shown message is the first unprocessed one answered `SHOW`, it is handed over marked processed, and every message after it is untouched; with no `SHOW`, nothing is shown and the whole store is walked |
| `InAppSelection.ConsultedBeforeShowSkipped` | iterableapi/src/main/java/com/iterable/iterableapi/IterableInAppManager.java:116-121 | every consulted message except the shown one got an answer other than `SHOW`; at most one per pass is shown |
| `InAppSelection.UnprocessedSnoc` | iterableapi/src/main/java/com/iterable/iterableapi/IterableInAppManager.java:115-116 | consulting one more unprocessed message appends it to the consulted list |
| `InAppSelection.PassWithoutShowIsFinal` | iterableapi/src/main/java/com/iterable/iterableapi/IterableInAppManager.java:114-123 | after a pass that shows nothing, the next pass consults no one and changes nothing |
| `InAppSelection.NoneSelectedWhenAllProcessed` | iterableapi/src/main/java/com/iterable/iterableapi/IterableInAppManager.java:115 | when every message is processed, the pass selects nothing |
| `InAppSelection.NoUnprocessed` | iterableapi/src/main/java/com/iterable/iterableapi/IterableInAppManager.java:115 | when every message is processed, the handler is asked about none |
| `InAppSelection.ThreeMessagePass` | iterableapi/src/main/java/com/iterable/iterableapi/IterableInAppManager.java:113-123 | with three unprocessed messages and `SHOW` only for the second, the first two are consulted and marked processed, the second is shown, and the third is left as it was |
| `InAppPayload.Decoded` | iterableapi/src/main/java/com/iterable/iterableapi/IterableInAppManager.java:52-58 | the list holds exactly the entries that decoded, and no more than there were entries |
| `InAppPayload.DecodedAll` | iterableapi/src/main/java/com/iterable/iterableapi/IterableInAppManager.java:52-58 | when every entry decodes, the list is those messages in payload order |
| `InAppPayload.DecodedConcat` | iterableapi/src/main/java/com/iterable/iterableapi/IterableInAppManager.java:52-58 | decoding a payload in two parts decodes each part and joins the results, so the kept entries keep their payload order and multiplicity |
| `InAppPayload.DecodedSingle` | iterableapi/src/main/java/com/iterable/iterableapi/IterableInAppManager.java:54-57 | an entry that fails to decode contributes nothing, and one that decodes contributes its message |
| `InAppPayload.RemoteList` | iterableapi/src/main/java/com/iterable/iterableapi/IterableInAppManager.java:46-63 | no sync happens exactly when the payload is null or empty or does not parse; a payload with no in-app array gives the empty list; otherwise the list is the decoded entries in payload order (see `DecodedConcat` and `DecodedSingle`) |
| `InAppActions.ClickAction` | iterableapi/src/main/java/com/iterable/iterableapi/IterableInAppManager.java:79-85 | click data starting with `itbl://` dispatches that data as a custom action; any other data, or none, dispatches open-URL with the data as given |
| `InAppActions.ClickWithoutSchemeOpensUrl` | iterableapi/src/main/java/com/iterable/iterableapi/IterableInAppManager.java:82-84 | null data, or data without the prefix, opens a URL |
| `InAppActions.ConsumesAsWritten` | iterableapi/src/main/java/com/iterable/iterableapi/IterableInAppManager.java:76-88 | the consume rule as written: consumed when there is a current activity and display succeeded, whatever `consume` says |
| `InAppActions.ConsumeFlagIgnored` | iterableapi/src/main/java/com/iterable/iterableapi/IterableInAppManager.java:73-88 | as written, the consume rule reports a message consumed even when the caller asked not to consume |
| `InAppActions.Consumes` | iterableapi/src/main/java/com/iterable/iterableapi/IterableInAppManager.java:73-88 | the consume rule as intended: the rule as written, and only when the caller asked to consume |
| `InAppActions.ConsumeRule` | iterableapi/src/main/java/com/iterable/iterableapi/IterableInAppManager.java:73-88 | as intended, a message that the caller asked not to consume is never reported consumed; with consuming asked for, which is what the one-argument `showMessage` does, the intended rule agrees with the code |
| `InAppManager.Manager.constructor` | iterableapi/src/main/java/com/iterable/iterableapi/IterableInAppManager.java:27-32 | a new manager has an empty in-memory store, the given handler, nothing showing and nothing consulted or consumed |
| `InAppManager.Manager.GetMessages` | iterableapi/src/main/java/com/iterable/iterableapi/IterableInAppManager.java:38-40 | the messages the manager hands out have unique ids |
| `InAppManager.Manager.ShowMessage` | iterableapi/src/main/java/com/iterable/iterableapi/IterableInAppManager.java:73-90 | display succeeds exactly when there is a current activity, no notification is showing already and the platform renders the message; a success leaves a notification showing; a consume request is sent only under the intended consume rule |
| `InAppManager.Manager.ProcessMessages` | iterableapi/src/main/java/com/iterable/iterableapi/IterableInAppManager.java:108-124 | outside the foreground, or while a notification is showing, nothing changes and no handler is asked; otherwise the store becomes `AfterPass`, the consulted messages are `Consulted`, and the `Shown` message, if there is one, is displayed and consumed when display succeeds |
| `InAppManager.Manager.SelectAndMark` | iterableapi/src/main/java/com/iterable/iterableapi/IterableInAppManager.java:113-123 | the loop asks the handler exactly about `Consulted`, leaves the store as `AfterPass`, and returns the `Shown` message |
| `InAppManager.Manager.SyncWithRemoteQueue` | iterableapi/src/main/java/com/iterable/iterableapi/IterableInAppManager.java:92-106 | the store becomes `Reconciled(old store, remote)`, followed by one selection pass over that store |
| `InAppManager.Manager.AddNewMessages` | iterableapi/src/main/java/com/iterable/iterableapi/IterableInAppManager.java:93-99 | the first loop leaves the store as `AddMissing(old store, remote)` and collects exactly the set of remote ids |
| `InAppManager.Manager.RemoveAbsentMessages` | iterableapi/src/main/java/com/iterable/iterableapi/IterableInAppManager.java:100-104 | the second loop leaves exactly the stored records whose id is a remote id, in store order |
| `InAppManager.Manager.SyncInApp` | iterableapi/src/main/java/com/iterable/iterableapi/IterableInAppManager.java:42-67 | a null, empty or unparsable payload changes nothing; any other payload syncs with its decoded list and runs a pass |

## Findings

| source | as written | input that shows it | evidently intended | confidence | as-written member | corrected member |
|---|---|---|---|---|---|---|
| iterableapi/src/main/java/com/iterable/iterableapi/IterableInAppManager.java:73-88 | `showMessage(message, consume, clickCallback)` never reads `consume`: after a successful display it always calls `inAppConsume` | `consume = false`, a current activity, display succeeds: the message is still consumed | consume only when `consume` is true (the one-argument overload passes `true`) | medium, not executed | `InAppActions.ConsumeFlagIgnored` (on `InAppActions.ConsumesAsWritten`) | `InAppActions.ConsumeRule` (on `InAppActions.Consumes`, used by `InAppManager.Manager.ShowMessage`) |

## Left out

- Rendering is not modelled: the HTML notification, its padding and background alpha, activities and contexts (`showIterableNotificationHTML`, IterableInAppManager.java:139-161). The one rule kept from it is that a display is refused while another notification is showing (:143-146). Everything else is the `renders` input.
- Dismissing a notification is not modelled, because it happens outside this core; only display sets `showing`.
- The network fetch and its asynchronous callback (`getInAppMessages(10, …)`, :43) are left out. A sync starts from an already received payload.
- JSON parsing and `IterableInAppMessage.fromJSON`/`toJSONObject` are code outside this core. The parsed shape is the `parse` input, an entry that fails to decode is `None`, and JSON equality is datatype equality.
- The storage classes (`IterableInAppMemoryStorage`, `IterableInAppFileStorage`) are not part of this model. Their contract is taken from the test and modelled as follows:
  - `addMessage` and `removeMessage` write the document at once. The test shows this for removal; for add it is assumed.
  - Flag setters change memory only, and `save` writes the document.
  - Loading keeps the first record of each id and treats a missing or malformed file as empty.
- File I/O is a `Disk` object whose content the store rewrites whole.
- MessageStore.AddMessage requires that the id is not stored yet. That is the store's stated contract, and every caller here (the manager's guard at :96, the test's empty store) meets it; overwriting an existing id is not modelled.
- Removing from the store while iterating over `storage.getMessages()` (:100-102) is modelled as iterating over a snapshot of the store taken before the loop.
- Message records are values. Java changes the stored message object through the shared reference (`message.setProcessed(true)`, test :27-28). The model instead updates the stored record with that id, which has the same effect on the store.
- The `clickCallback` parameter of `showMessage` is ignored by the code and so by the model. The click handler, once registered, is modelled only as which action it dispatches (`ClickAction`). Running the action (`IterableActionRunner`, and its instrumentation test `IterableActionRunnerTest`) is platform plumbing and is left out.
- Logging and the singleton accessors (`IterableApi.sharedInstance`, `IterableActivityMonitor`) are left out. Foreground state and the current activity are parameters.
