# MobX DevTools: a Dafny model of the hook and the panel's bookkeeping

This project models the deterministic core of a browser extension that
inspects MobX applications. The extension has two halves.

- **The hook in the page.** It is installed as
  `window.__MOBX_DEVTOOLS_GLOBAL_HOOK__` and does the following:
  - listens to `mobx.spy`;
  - pairs every `report-end` with the event that opened it by counting depth;
  - files each observable mutation of a filtered store under the innermost
    open action;
  - emits an action when that action closes;
  - keeps a registry of the live stores it has seen;
  - answers the panel's `GET_STATE`, `SET_FILTER` and `SET_VALUE` requests;
  - serializes stores with depth, length and key caps.
- **The devtools panel.** It does the following:
  - reassembles chunked `STORE_DATA` snapshots;
  - keeps a capped action history with one record per action id;
  - fills each action's `after` snapshot from the next state update;
  - renders the stores the user selected;
  - lets the user edit a leaf of the state tree inline, writing the panel's
    copy and asking the hook to write the live store;
  - compares two states key by key (`calculateDiff`);
  - parses stack traces into frames;
  - reconnects to the background script when the port drops.

The panel exists in three versions:
- the module version (`panel/*.js`);
- a Svelte store (`panel/stores/connection.js`);
- an older single-file version (`panel.js`).

The hook exists in two builds, `src/inject.js` and `inject.js`. They differ
in when a mutation asks for a state refresh. `Correlator.Refresh` is the
parameter that chooses between them.

All four copies of `parsePath` are the same code, and `Paths.ParsePath`
models it once. The same holds for four things in `panel.js`:
`calculateDiff` (`panel.js:863-958`, modelled by `Diff`), the inline
editor (`panel.js:638-705`, modelled by `StatePanel.FinishEdit`), the
chunk reassembly (`panel.js:226-241`, modelled by
`PanelConnection.ReceiveChunk`) and the batch handling
(`panel.js:302-321`, modelled by `ActionsPanel.HandleActionsBatch`). `LegacyPanel` models only where `panel.js`
differs: what it files for a single action and how a state update fills it.

Values are modelled as follows.
- A JavaScript value is a tree (`Values.Value`):
  - objects are insertion-ordered key lists;
  - numbers are integers;
  - a function is the opaque `Fn`.
- `JSON.stringify` is modelled through the JSON value it writes (`ToJson`,
  `JsonText`).
- `JSON.parse(JSON.stringify(x))` is `Clone`.
- Maps and objects keyed by strings are ordered entry lists (`Assoc`).
- Three library calls become parameters:
  - `mobx.toJS` is `toJS` / `plain`. When `toJS` is missing, `plain` stands for `Serializer.Serialize(·, 0)`.
  - `parseFloat` is `parseNumber` (`None` for `NaN`).
  - `cleanFilePath` is `clean`.
- The clock is an `int` field of each spy event.

Modules, one file each:
- Wrappers, Assoc, Text and Values hold the shared vocabulary.
- The hook side:
  - Serializer, Paths and Edit;
  - Correlator (the spy callback);
  - PageHook (the registry, the requests and the flush).
- The panel side:
  - Diff and StackTrace;
  - PanelState;
  - ActionsPanel, PanelConnection and StatePanel;
  - StoreConnection (the Svelte store);
  - LegacyPanel (`panel.js`).

## Model

| member | source | states |
|---|---|---|
| Correlator.ActionStoreName | inject.js:101-111 | An action's store is the text before its first `@` when `@` is not the first character; otherwise it is the object's constructor name, `Store` for an empty one, or `Unknown` without a constructor. |
| Correlator.ChangeStoreName | inject.js:200-208 | A mutation's store is the non-empty text before the first `@` of `debugObjectName`; otherwise it is the constructor name of its object, or none. |
| Correlator.CopyArguments | src/inject.js:155-166 | The recorded arguments are as many as the event's. Each has the JSON form of the argument after `toJS`, and is `null` where that has none (`undefined`, a function). |
| Correlator.StartAction | src/inject.js:119-183 | An action start does three things. It pushes exactly one action on top of the open ones and changes none of them. It takes the next counter value, and the id is written from the clock and that counter. It opens at the depth before the event, with no changes, and is marked filtered iff the filter list is non-empty and names its store. Each recorded argument has the JSON form of the argument after `toJS`, and `null` where that has none (`undefined`, a function). The registry changes only at the action's own store name, and only when there is an object and the name is not `Unknown`. |
| Correlator.EndReport | src/inject.js:185-200 | A `report-end` lowers the depth by one. It closes the innermost open action only if that action started at the lowered depth. A closed action is emitted iff it is filtered or recorded a change, and otherwise vanishes. With an empty stack, or a mismatched depth, the stack is untouched and nothing is output. |
| Correlator.Attach | src/inject.js:235-254 | Filing a change appends it to the changes of the innermost open action and leaves every other open action as it was. |
| Correlator.AttachMarks | src/inject.js:235-260 | Filing a change alters nothing of any open action except its change list. |
| Correlator.Mutate | src/inject.js:203-261 | A mutation never changes the depth, the filter, the counter or the edited path, and its only outputs are refresh requests. |
| Correlator.MutateStack | src/inject.js:204-260 | A mutation whose name occurs in the edited path, or whose store is missing, `Object` or `Array`, changes nothing and outputs nothing. A tracked, filtered mutation with an open action files exactly one change under the innermost action. Every other mutation leaves the open actions unchanged. |
| Correlator.MutateRegistry | inject.js:196-218 | The registry changes at most at the mutation's own store name. It changes only for a mutation that is neither suppressed nor untracked and that has an object, which then becomes the entry. |
| Correlator.MutateRefresh | inject.js:221-259 | In the module build, every tracked mutation that is not suppressed asks for a refresh. In the plain script, only such a mutation of a filtered store does. |
| Correlator.Step | src/inject.js:113-262 | The depth rises by exactly one for an event that starts a report and falls by exactly one for a `report-end`. No other event changes it. Only an action start advances the counter. |
| Correlator.RunInv | src/inject.js:171-200 | Over any event sequence, the open actions started at strictly increasing depths, all below the current depth. They took strictly increasing counter values, no larger than the counter, and carry the id written from them. |
| Correlator.IdCount | inject.js:160-162 | An action id determines the counter value it was written from. |
| Correlator.EmittedIdsDistinct | inject.js:160-171 | From a fresh hook, the actions emitted over any event sequence carry pairwise different ids. |
| Correlator.TwoEnds | inject.js:175-191 | With one open action started at depth 0 and the depth at 2, the first `report-end` closes nothing and the second closes and emits it. |
| Correlator.ActionWithOneUpdate | inject.js:95-256 | Take an action of a filtered store that makes one update. The update's `report-end` pops nothing. The action's `report-end` pops it and emits it with exactly that one `update` change. |
| PageHook.PlainStores | src/inject.js:316-333 | The converted stores have exactly the registry's names, in registration order, each with the plain form of its live object. |
| PageHook.SnapshotLookup | src/inject.js:310-342 | The state snapshot holds exactly the registered stores whose plain form stringifies to something, each as the JSON copy of that form. |
| PageHook.ApplySetValue | src/inject.js:386-428 | `setValue` for an unknown store, or one whose registered value is falsy, leaves the page exactly as it was. For a store with a truthy value it sets the edited path to `storeName.path` and nothing else in the hook. It applies the edit to that store's live object, and an edit that aborts or throws leaves the heap unchanged. The action queue is never touched. |
| PageHook.Handle | src/inject.js:516-528 | Only `GET_STATE` posts anything, and only `SET_VALUE` touches live objects. |
| PageHook.FilterGovernsFiling | inject.js:557-559 | `SET_FILTER` replaces the filter wholesale. Afterwards, a tracked mutation that is not suppressed, made with an action open, is filed iff the new list is non-empty and names its store. |
| PageHook.EditSuppressesSubstrings | src/inject.js:204-206 | After `SET_VALUE` for a registered store with a truthy value, any mutation whose property name occurs anywhere in `storeName.path` is dropped whole, whatever its store. |
| PageHook.EditEchoDropped | src/inject.js:391-392 | In particular, the update the edit itself causes is not recorded as a change. |
| PageHook.SetValueHeap | src/inject.js:386-426 | A successful edit replaces exactly the edited store's live object in the heap. |
| PageHook.SetValueUnknownStore | src/inject.js:388-389 | `SET_VALUE` for an unregistered store changes nothing. |
| PageHook.SetValueWrites | src/inject.js:400-426 | A `SET_VALUE` that reaches its target leaves the coerced text at the edited property, or the converted length when that property is an array's `length`. It touches no other live object. |
| PageHook.FlushSendsNewest | src/inject.js:277-289 | A flush of a non-empty queue posts the newest `min(n, 50)` queued actions in queue order, then one state snapshot, and empties the queue. An empty queue posts nothing. Neither build ever pushes to `actionQueue` or calls `flushActionsDebounced`, so in the program the queue stays empty and this is code it never reaches. |
| PageHook.HandleKeepsRegistry | src/inject.js:302-307 | The registry never holds a store name twice. |
| Serializer.Serialize | src/inject.js:431-469 | The following hold at every level of the output. Past depth 5 the result is `'[Max Depth]'`. Arrays keep their first 50 items, each serialized one level deeper. An object keeps exactly the members among its first 100 keys that are neither `$`/`_`-prefixed nor functions. Primitives come back as they are. The output is never deeper than the remaining depth. |
| Serializer.SerializeObjectMembers | src/inject.js:451-461 | A serialized object holds, in source order, exactly the members among its first 100 keys that are neither `$`/`_`-prefixed nor functions. Each keeps its key, and its value is serialized one level deeper. |
| Serializer.SerializeFieldsMembers | src/inject.js:451-461 | Serializing the members of an object with a key budget gives, in order, the kept members among the first budget keys. Each keeps its key and holds its value serialized one level deeper. |
| Serializer.SerializeIdempotent | src/inject.js:431-469 | Serializing an already serialized value at the same depth changes nothing. |
| Paths.ParsePath | panel/utils.js:27-65 | Every name `parsePath` yields is non-empty and free of `.` and `[`, and the empty path yields nothing. |
| Paths.ParseFromAddressable | panel/utils.js:32-62 | Scanning on from a pending name free of `.` and `[` yields only non-empty names free of `.` and `[`, whatever the rest of the path holds. |
| Paths.ParsePathScan | src/inject.js:345-383 | The character loop as written computes `ParsePath`. |
| Paths.ParseStepBracket | panel/utils.js:33-47 | A bracket ends the pending name. It yields `parseInt` of its contents unless they are empty, and skips the closing `]`. |
| Paths.ParseStepDot | panel/utils.js:48-53 | A `.` ends the pending name and yields nothing itself, so consecutive dots collapse. |
| Paths.PlainPath | panel/utils.js:54-64 | A non-empty path without `.` or `[` is a single property name. |
| Paths.FormatThenParse | panel/utils.js:27-65 | Parsing the path the state tree builds for a node gives back the segments it was built from. |
| Paths.ParsedNamesOccur | panel/utils.js:27-65 | Every property name `parsePath` yields occurs in the path text. |
| Paths.DocumentedExamples | panel/utils.js:21-26 | `user.name`, `[0].locationName` and `items[0].name` parse as the documentation says. |
| Edit.ArrayIndex | src/inject.js:410 | A property name denotes an array index only when it is the canonical decimal of a number below 2^32 - 1. |
| Edit.ArrayIndexOfDecimal | src/inject.js:410 | Every index below 2^32 - 1, written in decimal, names that index. |
| Edit.Put | src/inject.js:426 | Assigning to an object always succeeds, and changes only the assigned key. Assigning to a primitive, `null` or `undefined` throws. The result is still an object, array or function. A property the value tree holds reads back the assigned value, except that an array's `length` reads back the length the value converts to. |
| Edit.PutItem | src/inject.js:426 | Assigning `length` to an array succeeds iff the value converts to a valid length, and the array then has exactly that length. Assigning an index stores the value there, padding with holes. |
| Edit.AsLength | src/inject.js:426 | A length that `array.length = v` accepts is always below `2^32`. |
| Edit.BlankLength | src/inject.js:426 | Empty or all-white-space text is length 0, so assigning it to `length` empties any array. |
| Edit.DecimalLength | src/inject.js:426 | The decimal text of every `k < 2^32` is accepted as length `k`. |
| Edit.PutItemReadsBack | src/inject.js:426 | An array index or `length` that was assigned reads back the assigned value, or for `length` the converted length. |
| Edit.Coerce | src/inject.js:416-424 | An old number gets the parsed number, or the raw text when it does not parse. An old boolean gets `text === 'true'`. Anything else gets the raw text. |
| Edit.WrittenThroughObject | src/inject.js:408-426 | Only an object, array or function can be written through: `null` and `undefined` abort, and other primitives throw. |
| Edit.WriteAt | src/inject.js:408-426 | The walk aborts iff some prefix of the walked keys, the empty one and the whole one included, reaches `null` or `undefined`. A write below an object changes only the member the path starts with. |
| Edit.WriteReadBack | src/inject.js:408-426 | After a successful walk, the edited path reads back the coerced text, or the converted length when the edited property is an array's `length`. |
| Edit.Walked | src/inject.js:400-415 | A leading key equal to the store name is skipped. The remaining keys but the last are walked, and the last is assigned. A path of just the store name assigns the store name, and an empty path assigns `undefined`. |
| Edit.StoreNameOptional | src/inject.js:403-406 | A path may name its store first or leave it out, with the same effect. |
| Edit.TreeEditWritesNode | panel/state-panel.js:316-362 | Editing the leaf the state tree shows writes the coerced text at exactly that node (the converted length for an array's `length`). |
| Values.Clone | src/inject.js:335 | As a member of a record that goes through a JSON round trip, a value keeps its JSON form, and a member with none reads back as `undefined`. Every call site clones an object. A top-level value with no JSON form would make `JSON.parse` throw, and is never cloned. |
| Values.CloneFieldsLookup | src/inject.js:335 | A JSON round trip of an object keeps exactly the members that stringify to something, each cloned. |
| Values.CloneIdempotent | src/inject.js:335 | A second JSON round trip changes nothing. |
| Values.JsonRoundTrip | src/inject.js:335 | Parsing the text of a JSON value and writing it again gives the same JSON value. |
| Values.SafeStringify | panel/utils.js:173-179 | `undefined` and `null` print as words and booleans as `true`/`false`. Strings and all other values print as `JSON.stringify` writes them. Only a function prints as nothing. |
| Values.SafeStringifyStringsInjective | panel/utils.js:173-179 | Distinct strings print differently. |
| Values.EscapeInjective | panel/utils.js:177 | `JSON.stringify`'s escaping of string contents loses nothing. |
| Text.ParseIntOfDecimal | panel/utils.js:45 | `parseInt` reads back every integer written in decimal. |
| Text.SplitAppend | panel/actions-panel.js:255 | Splitting at a separator splits the piece list there. |
| Diff.Diff | panel/utils.js:70-111 | Two non-objects whose printed forms differ give exactly one modification: at the path (or `root`), from the old value to the new one. Two non-objects that print the same give nothing. An object against a non-object gives exactly one modification, at the path or at `root`. Every change below a non-empty path is reported at or under it. |
| Diff.DiffKey | panel/utils.js:117-163 | A key only after is reported added with its value, and a key only before is reported removed, at `prefix.key`. A nested change stays under `prefix.key`. |
| Diff.ArraysComparedWhole | panel/utils.js:137-146 | A key holding an array on either side gives one modification when the printed forms differ and nothing otherwise, never a change inside the array. |
| Diff.DiffSelf | panel/utils.js:77-90 | A state compared with itself has no changes. |
| Diff.AddedRemovedExactly | panel/utils.js:115-135 | Between two state objects whose store names are all non-empty, and for a name `k` with no `.` in it, a store is reported added with value `v` iff only the later state has it, with value `v`. It is reported removed iff only the earlier one has it. |
| Diff.DiffSelfSame | panel/utils.js:70-168 | `calculateDiff` reports nothing iff the two states agree key by key. |
| Diff.Dedup | panel/utils.js:115 | The key set holds every key of either side exactly once. |
| StackTrace.MatchV8 | panel/actions-panel.js:262 | A match of the V8 pattern has a non-empty file, non-empty digit runs for line and column, and a non-empty name when it has one. |
| StackTrace.MatchGecko | panel/actions-panel.js:275 | A match of the SpiderMonkey pattern has a non-empty name and file, and digit runs for line and column. |
| StackTrace.LineFrame | panel/actions-panel.js:257-294 | A line gives no frame iff neither pattern matches and it is empty or starts with `Error`. Otherwise the result depends on which pattern matches. A V8 match gives its name, or `anonymous`. A SpiderMonkey match gives its groups. Anything else gives the line as the name with empty location fields. Matched lines and columns are digit-only. |
| StackTrace.V8NamedMatches | panel/actions-panel.js:257-265 | `at name (file:line:column)` matches the V8 pattern with exactly those groups and gives the frame `name`, cleaned file, line, column. This holds when the name has no white space and is not `async`, the file has neither `:` nor a line terminator, and line and column are digit runs. |
| StackTrace.V8PlainMatches | panel/actions-panel.js:257-271 | `at file:line:column` matches the V8 pattern without a name group and gives an `anonymous` frame with the cleaned file. This holds when the file has no white space or `:` and does not start with `(`, and line and column are digit runs. |
| StackTrace.GeckoMatches | panel/actions-panel.js:275 | `name@file:line:column` matches the SpiderMonkey pattern with exactly those groups. This holds when the name has no `@`, the file has no `:`, neither holds a line terminator, and line and column are digit runs. |
| StackTrace.OriginsSound | panel/actions-panel.js:255-295 | Each frame comes from its own non-blank line, in increasing line order, and is what that line gives. |
| StackTrace.FramesFollowLines | panel/actions-panel.js:253-297 | `parseStackTrace` yields at most one frame per non-blank input line, in input order. |
| ActionsPanel.Cap | panel/actions-panel.js:373-377 | A history over 200 is cut to its newest 100, and the records of exactly the dropped ids are deleted. A history within the limit is untouched. |
| ActionsPanel.HandleAction | panel/actions-panel.js:347-377 | The action is appended and capped. Its record is, by priority: its non-empty changes; else its before/after pair under its store key when both are truthy; else an empty change list. No other record changes except for the dropped ids. |
| ActionsPanel.HandleActionsBatch | panel/actions-panel.js:388-404 | Every batch action still listed gets the same before snapshot, a JSON copy of the current state, and a `null` after. The batch is appended and capped. |
| ActionsPanel.LastWaiting | panel/actions-panel.js:420-425 | The search from the end finds the newest action whose `after` is still `null`, or reports that none waits. |
| ActionsPanel.UpdateActionAfterState | panel/actions-panel.js:416-441 | Only the newest waiting action gets its `after`, the copy of its own store or of the whole state, and every other record stays. Without a waiting action nothing changes. |
| ActionsPanel.AfterTargetsNewest | panel/actions-panel.js:416-441 | Whichever action is waiting with no waiting action after it receives the snapshot, the copy of its own store or of the whole state; every other record stays. |
| ActionsPanel.UpdateSettlesOne | panel/actions-panel.js:420-439 | A state update removes exactly the newest waiting id from the waiting ones. |
| ActionsPanel.ClearActions | panel/actions-panel.js:446-452 | Clearing empties the history and the records and drops the selection, and nothing else changes. |
| ActionsPanel.HandleActionKeepsCovered | panel/actions-panel.js:347-377 | With distinct ids, every listed action keeps a record and the history stays within 200. |
| ActionsPanel.BatchKeepsCovered | panel/actions-panel.js:388-404 | The same for a batch of new, distinct ids. |
| ActionsPanel.UpdateKeepsCovered | panel/actions-panel.js:416-441 | Filling an `after` never removes a record. |
| ActionsPanel.ClearThenAction | panel/actions-panel.js:446-452 | After a clear, the next action is the whole history and has the only record. |
| StatePanel.RenderState | panel/state-panel.js:100-121 | The view has three cases. The "no state" view shows iff the state is empty. The "no stores" view shows iff no store in it is selected. Otherwise the tree shows exactly the stores that are both present and selected. |
| StatePanel.RenderedStores | panel/state-panel.js:107-112 | A store is shown iff it is in the state and selected, and it is shown with its value in the state. |
| StatePanel.Choose | panel/state-panel.js:12-60 | "Select All" selects every listed store and "Deselect All" empties the selection. Both then re-render the filter, so the store list becomes exactly the stores of the current state. A checkbox changes only its own store and keeps the list. Each of them posts the new selection as the filter, and nothing else in the panel changes. |
| StatePanel.SelectAllDistinct | panel/state-panel.js:37 | Adding names one by one to a set never repeats a name. |
| StatePanel.FilterMessage | panel/state-panel.js:67-83 | The filter posted carries exactly the selected names, and `[]` when none is selected. |
| StatePanel.DeselectAllSilencesPage | panel/state-panel.js:43-48 | After "Deselect All" reaches the page, no store counts as filtered. |
| StatePanel.SelectAllTracksListed | panel/state-panel.js:36-41 | After "Select All" reaches the page, every listed store is filtered. |
| StatePanel.SelectAllTwiceCoversState | panel/state-panel.js:12-41 | A stale store list catches up: after "Select All" twice, every store of the current state is selected. |
| StatePanel.EditValue | panel/state-panel.js:295-314 | Opening the editor sets the editing flag and shows the leaf's `String` form. |
| StatePanel.LocalEdit | panel/state-panel.js:322-362 | A falsy store value writes nothing. Otherwise the walk is the same as the hook's `setValue`. |
| StatePanel.FinishWithoutChange | panel/state-panel.js:320 | Unless the edit is saved with changed text, nothing is written or sent, and the editor closes. |
| StatePanel.FinishOnce | panel/state-panel.js:317-318 | A second `finishEdit` of a closed editor does nothing. |
| StatePanel.FinishAborts | panel/state-panel.js:325-351 | A missing store or a `null` on the way writes and sends nothing and leaves the panel editing. |
| StatePanel.FinishWrites | panel/state-panel.js:331-386 | A completed edit sends `SET_VALUE` with the raw typed text for the same store and path, and closes the editor. The panel's copy reads the coerced text at the edited leaf (the converted length for an array's `length`), and no other store changes. |
| StatePanel.PanelAndPageAgree | panel/state-panel.js:353-375 | Suppose the page's live store held what the panel's copy held. Then, after the page applies the edit's `SET_VALUE`, the live store equals the panel's copy. |
| StatePanel.FinishKeepsCoherent | panel/state-panel.js:362 | An in-place edit of a committed snapshot is seen through both names of that object. |
| PanelConnection.ReceiveChunk | panel/connection.js:137-152 | A new timestamp starts a fresh buffer expecting `total` stores. A chunk is set under its name, and a repeated name overwrites. The buffer becomes the current state exactly when its key count reaches the expected count. Before that the state is untouched, unless it is still the same batch's committed buffer. |
| PanelConnection.ChunksRebuildSnapshot | panel/connection.js:137-152 | Take a snapshot sent as one chunk per store under a new timestamp. It becomes the current state exactly when its last chunk arrives, store for store and in the order sent. |
| PanelConnection.LateChunkShows | panel/connection.js:144-147 | A late chunk of an already committed batch shows up in the current state, since the state is that batch's own object. |
| PanelConnection.OnStateUpdate | panel/connection.js:154-177 | While a value is being edited, a state update changes neither the state nor the records. Otherwise it replaces the state and fills the newest waiting action. The store list is refreshed only when the filter is open and the update names a new store. |
| PanelConnection.HandleMobXMessage | panel/connection.js:120-200 | Only `MOBX_DETECTED` posts anything, namely the filter followed by `GET_STATE`. |
| PanelConnection.HandleKeepsCoherent | panel/connection.js:120-200 | Every message keeps the two names of a committed snapshot in step. |
| PanelConnection.OnDisconnect | panel/connection.js:39-46 | Below three attempts a drop counts one and schedules a reconnection. At three it shows "Connection lost". |
| PanelConnection.AsWrittenNeverGivesUp | panel/connection.js:39-48 | As written, a port that keeps dropping is reconnected every time, and "Connection lost" never shows. |
| PanelConnection.FourDropsAsWritten | panel/connection.js:39-48 | Four drops in a row from a fresh panel give four reconnections. |
| PanelConnection.CorrectedBounded | panel/connection.js:39-48 | With the counter cleared only by a delivered message, a link that delivers nothing is reconnected at most three times. |
| PanelConnection.FourDropsCorrected | panel/connection.js:39-48 | Corrected, the fourth drop in a row shows "Connection lost". |
| StoreConnection.AllStoreNames | panel/stores/connection.js:10 | The store list names exactly the stores in the current state. |
| StoreConnection.Append | panel/stores/connection.js:91-94 | The new action is last, and the list is the newest `min(n, 500)` of the old list plus it. |
| StoreConnection.OnAction | panel/stores/connection.js:90-102 | `ACTION` updates the list as above. A record is written only for a payload with non-empty changes, and it is those changes. No other record changes and none is removed. |
| StoreConnection.ListKeepsNewest | panel/stores/connection.js:91-94 | Over any run of actions, the list is always the newest 500 of everything received. |
| StoreConnection.RecordsOutliveActions | panel/stores/connection.js:96-101 | A filed record survives every later message, also after its action leaves the list. |
| StoreConnection.FirstWithId | panel/stores/connection.js:107 | `find` gives the first listed action with the id, or reports that none has it. |
| StoreConnection.SetFrame | panel/stores/connection.js:109-110 | The frame's source lands at its index, and the other indices keep theirs. |
| StoreConnection.OnSingleFrame | panel/stores/connection.js:104-123 | Only the first listed action with the id gets the frame. The selected action gets it iff its id matches. Nothing else changes. |
| StoreConnection.FrameReadBack | panel/stores/connection.js:105-113 | After `SINGLE_FRAME_SOURCE`, the action shows the frame's source and every other listed action is as it was. |
| StoreConnection.SelectionStaysInStep | panel/stores/connection.js:104-123 | When the detail view shows that action, the two copies stay equal. |
| StoreConnection.SendFilterToPage | panel/stores/connection.js:66-72 | The filter posted names exactly the selected stores. |
| StoreConnection.HandleMessage | panel/stores/connection.js:78-125 | Only `MOBX_DETECTED` posts anything, namely the filter followed by `GET_STATE`. `STATE_UPDATE` replaces the state unconditionally. The selection never changes here. |
| StoreConnection.SavedFilterReachesPage | panel/stores/connection.js:146-150 | Once the page has the filter that `saveSelectedStores` posts, it files the changes of exactly the chosen stores. |
| StoreConnection.ClearActions | panel/stores/connection.js:152-156 | Clearing empties the list and the records and drops the selection, and keeps the state and the selection of stores. |
| LegacyPanel.RecordAction | panel.js:281-295 | `ACTION` appends and caps as the split panel does. It files a before snapshot, a JSON copy of the current state, with a `null` after, whatever the payload carries. |
| LegacyPanel.LastUnfilled | panel.js:248-251 | The search from the end finds the newest action whose `after` is missing or falsy. |
| LegacyPanel.FillAfter | panel.js:248-259 | Only the newest unfilled action gets a copy of the whole new state as its `after`. No other record changes, and without an unfilled action nothing changes. |
| LegacyPanel.FillSettlesOne | panel.js:251-252 | The filled action is no longer unfilled, and no other action's status changes. |
| LegacyPanel.ReceiveState | panel.js:243-279 | While editing nothing changes but possibly the store list. Otherwise the state is replaced and the newest unfilled action is filled. Coherence is kept. |
| LegacyPanel.HandleLegacy | panel.js:213-328 | Only `MOBX_DETECTED` posts anything. Stack-source replies change nothing. |
| LegacyPanel.LegacyAgreesElsewhere | panel.js:213-328 | The two panels handle every message alike except single actions and state updates. |
| LegacyPanel.LegacyFilesSnapshot | panel.js:282-289 | For a new action carrying changes, the split panel files the changes, while the single-file panel files a before snapshot awaiting its after. |
| LegacyPanel.LegacyKeepsSnapshots | panel.js:243-321 | The single-file panel only ever files snapshots. |

## Left out

- Timers and debouncing are not modelled. This covers `debounce`, the 300 ms state refresh, the 500 ms flush, the 1 s reconnect delay, the 100 ms filter resend and the 1 s `editingTimeout`. A refresh request is the output `ScheduleState`. The edited path is cleared by the message `EditingTimeout`, and a flush is the call `PageHook.Flush`.
- DOM rendering is left out: `renderTree`, `renderActions`, the action detail views, `updateStatus` text, `escapeHtml` and `scrollToBottom`. Rendering is modelled only as the `StatePanel.View` the state panel would show.
- Stack capture through `throw new Error()`, its line filtering, and source-map lookup (`mapStack`) depend on the host engine and on asynchronous promises. The emitted action's stack trace is not modelled, and neither is the async order of emissions.
- `cleanFilePath` relies on the `URL` constructor, so it is the parameter `clean`.
- `mobx.toJS` and `parseFloat` are parameters, and numbers are integers only. Floating point, `NaN` other than "does not parse", and `-0` are not modelled.
- The `try`/`catch` fallbacks are not modelled: `'[serialization error]'` arguments, the `String(...)` change values, the `{error: 'Failed'}` store and `'[Error]'` items. They only apply when a getter or `toJSON` throws, which a value tree cannot do.
- Object keys keep insertion order. JavaScript's ordering of integer-like keys and properties inherited from prototypes are not modelled.
- `localStorage` persistence of the selected stores is not modelled.
- The transport is not modelled: `sendToPage`, `chrome.tabs.sendMessage` with its port fallback, `content.js`, `background.js` and the `MOBX_MESSAGE` unwrapping. Messages are delivered as values.
- `STACK_SOURCE` and `SINGLE_FRAME_SOURCE` in the module panel call handlers that `panel/actions-panel.js` does not define, so they throw. `PanelConnection.HandleMobXMessage` leaves the panel unchanged for them. Their source fetching is not part of this model.
- The Svelte store's `requestSingleFrameSource`, `setValue` and `exportState` only post or download, so they are not modelled. Its reconnect loop has no counter and is not modelled either.
- Status text and the MobX version are not modelled.
- Edit.AsLength: a length is read from a whole number, a boolean, `null`, or text that is blank or a decimal digit run after trimming. Other numeric text (`0x10`, `5e0`, `+5`, `1.0`) and objects or arrays, which JavaScript passes through `ToPrimitive`, are treated as invalid lengths. `Coerce` never produces them for a numeric `length`: it yields a number or text that does not parse as one.
- PageHook.SetValueWrites: live objects are modelled as disjoint trees, one per heap entry. An edit through one store does not reach another store that shares the edited object, such as a `rootStore` holding a child store that is also registered under its own name. The clause that no other live object changes holds only for the model's disjoint heap.
- PageHook.Handle: `inject` registers the identity of a live object. A primitive or `null` passed to `inject` is represented only as a target whose heap entry holds that value, or has no entry and reads as `undefined`.
- StoreConnection.SetFrame: `frameIdx` is an integer index into a sparse array; a negative or fractional index is not modelled.
- StoreConnection.OnSingleFrame: in the source, the listed action and `selectedAction` can be one object, so writing one is seen through the other. The model writes both copies by value, which gives the same contents (`SelectionStaysInStep`).
- Correlator.StartAction: the model uses one clock reading for both the id and the timestamp, while the source reads `Date.now()` twice.
- StackTrace.V8NamedMatches: states the match only for the common frame shape. Names with white space (the lazy name group then splits at the first space that a location follows), the name `async`, and files containing `:` such as URLs with a port are not covered.
- StackTrace.V8PlainMatches: likewise only files without white space or `:`. A URL with a port is not covered.
- StackTrace.GeckoMatches: likewise only files without `:`. A URL with a port is not covered.
- LegacyPanel.LastUnfilled: in the model a change-list record never counts as unfilled. `panel.js` never files one, as `LegacyKeepsSnapshots` shows, so the case cannot arise.
- The `filterOpen` flag stands for the store filter `div` being visible. The store list is refreshed as `Object.keys(currentState)`, which is what the filter's re-render assigns.

## Findings

| source | as written | input that shows it | evidently intended | confidence | as-written member | corrected member |
|---|---|---|---|---|---|---|
| panel/connection.js:39-48 | `reconnectAttempts` is reset to 0 at the end of every `connectToBackground` that gets as far as installing its listeners, including each reconnection. The counter therefore never exceeds 1 between drops, and "Connection lost" is never shown. `panel.js` has the same code. | A port that connects and then drops, four times in a row: four reconnections are scheduled. | At most three reconnections in a row without a working link, then "Connection lost". The counter is cleared only once the link has delivered a message. | not executed | PanelConnection.FourDropsAsWritten | PanelConnection.FourDropsCorrected |
