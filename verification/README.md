# Cachearium's nested output cache, in Dafny

This project models the "russian-doll" output cache of the Cachearium PHP library
and proves properties of the model.

A page fragment is wrapped in `start($key)` … `end()`:

- **Miss.** `start` pushes a frame (a `CacheData` entry) and opens an output buffer.
- **End.** `end` appends the captured output to the frame and stores the frame
  under its key. At the top level it returns (or echoes) the rendered text.
- **Nesting.** A scope opened inside another flushes the parent's pending output
  into the parent. It then records a reference to the child and makes every
  other recorded frame depend on the child's key.
- **Rendering.** A cached entry is rendered by expanding those references
  through the store.
- **Freshness.** An entry is fresh while the md5 of its dependencies' current
  values equals the hash it memoised when it was stored. The current value of
  a dependency is either a version counter bumped by `invalidate` or a child's
  serialized entry.

The model follows the code, not the comments. Where the code evidently departs
from what it means, the code is modelled as written beside a corrected
definition (see "## Findings").

Modules:

- `Wrappers`: `Option`, `Result` and the error kinds.
  - `NotCached`, `KeyClash` and `InvalidData` are the library's exceptions.
  - `Fatal(...)` stands for PHP errors that end the request.
- `Php`: the slice of PHP value semantics the library relies on:
  - truthiness;
  - string conversion;
  - the PHP 7 integer coercion of `+=`.
- `Keys`: `CacheKey` (src/CacheKey.php).
- `Oracles`: md5, `serialize`, `is_callable` and callback results, as fields of an
  `Env` value.
  - Nothing is assumed about them.
  - The freshness lemmas that need md5 or entry serialization to be injective
    take that as an explicit hypothesis.
  - The finding about `setDependencies` assumes md5 answers 32 characters
    (`Oracles.Md5Digests`), so that no digest list implodes to ''.
- `RamStore`: the two-level in-memory store of src/Backend/CacheRAM.php.
  - The namespace prefix is a field. The class never declares it, so in practice
    it is empty.
- `Entries`: the store-free part of `CacheData` (src/CacheData.php):
  - segments, dependencies and the memoised hash;
  - append operations, `checkClash`, `getFirstData` and `mergeDependencies`.
- `Deps`: the operations that read or write the store:
  - `getMulti` with and without the `dependencyInit` callback;
  - `generateDependenciesHash`, `checkUpdateToDate`, `updateDependenciesHash(IfNull)`
    and `setDependencies`;
  - `getData` (both the generic one and CacheRAM's override);
  - `storeData`, `invalidate` and `clean`.
- `Render`: `stringify`.
- `Engine`: the start/end engine of src/CacheAbstract.php as a pure transition
  function over a `State`:
  - the store;
  - the recorded frames (`$loopdata`) and the depth (`$inloop`);
  - the stack of output buffers and the text written past every buffer;
  - the default lifetime.
- `Freshness`: how the dependency hash decides freshness.
- `NullStore`: src/Backend/CacheNull.php.
- `LogEnum`: src/CacheLogEnum.php.
- `Scenarios`: request sequences in the manner of the start/end test suite:
  - a single scope on any enabled store whose slot for the key is empty (a miss,
    then a hit returning the same text);
  - two nested scopes from an empty store.

  The suite's four-level nesting test and its test of three sibling scopes inside
  one are not modelled as such.
- `Findings`: concrete inputs for every finding below.

Every store operation returns a `Step` holding the store it leaves and a
`Result`. An exception therefore carries the store as the operation left it: for
example, CacheRAM's `getData` deletes a stale entry before it throws. Engine
operations return the engine state in the same way. A clash, for instance, leaves
the depth already raised.

## Model

| member | source | states |
|---|---|---|
| Keys.NewKey | src/CacheKey.php:35-39 | The getters read back exactly the base, id and sub given to the constructor |
| Keys.NewKey2 | src/CacheKey.php:35-39 | A key built without a sub has the empty string as sub |
| Keys.GetBase | src/CacheKey.php:41-43 | Setting the base just read gives the same key back |
| Keys.GetId | src/CacheKey.php:45-47 | Setting the id just read gives the same key back |
| Keys.GetSub | src/CacheKey.php:49-51 | Setting the sub just read gives the same key back |
| Keys.SetBase | src/CacheKey.php:53-56 | `setBase` changes the base only; id and sub read back unchanged |
| Keys.SetId | src/CacheKey.php:58-61 | `setId` changes the id only; base and sub read back unchanged |
| Keys.SetSub | src/CacheKey.php:63-66 | `setSub` changes the sub only; base and id read back unchanged |
| Keys.GetHash | src/CacheKey.php:72-74 | The md5 of the string forms of base, id and sub glued together with no separator; `Keys.HashSeesOnlyConcatenation` and `Keys.DistinctKeysSameHash` state what that loses |
| Keys.HashSeesOnlyConcatenation | src/CacheKey.php:72-74 | Two keys whose parts concatenate to the same text have the same hash, for any md5 |
| Keys.DistinctKeysSameHash | src/CacheKey.php:72-74 | The different keys ("ab", "c") and ("a", "bc") hash alike |
| RamStore.Get | src/Backend/CacheRAM.php:110-134 | Disabled, the read is NotCached. An array base or id gives InvalidData. Otherwise it succeeds exactly when the slot exists, a stored null included, and returns the slot's contents |
| RamStore.Store | src/Backend/CacheRAM.php:136-153 | Disabled: false and no change. Array base or id: InvalidData. Otherwise true, with the key's slot set and every slot of another (bucket, sub) unchanged |
| RamStore.Delete | src/Backend/CacheRAM.php:155-167 | With a valid key it empties exactly that slot and reports true; other slots keep their contents; the enabled flag is not consulted |
| RamStore.CleanP | src/Backend/CacheRAM.php:169-172 | Every slot whose bucket is namespace++base++id is emptied; slots of other buckets are untouched |
| RamStore.Clear | src/Backend/CacheRAM.php:174-177 | Every slot is empty afterwards |
| RamStore.Increment | src/Backend/CacheRAM.php:85-108 | Disabled: the default, nothing stored. An empty or null slot is set to the default, and the default is returned without adding the increment. An integer slot gets the increment added and the sum returned. Other slots are unchanged |
| RamStore.HashKey | src/Backend/CacheRAM.php:56-58 | The key hash is the bucket index followed by the serialized sub |
| RamStore.Enable | src/CacheAbstract.php:106-109 | The store is enabled and keeps its contents |
| RamStore.Disable | src/CacheAbstract.php:116-119 | The store keeps its contents but every read is NotCached |
| RamStore.InvalidArgsRejected | src/Backend/CacheRAM.php:65-69 | With an array base or id, `get`, `store`, `delete` and `increment` all throw InvalidData and leave the store unchanged |
| RamStore.GetAfterStore | src/Backend/CacheRAM.php:126-151 | A value stored under a valid key, null included, is what `get` returns for it |
| RamStore.IncrementFreshGivesDefault | src/Backend/CacheRAM.php:101-107 | Incrementing by 1 a key never seen yields 0, not 1 |
| RamStore.IncrementOverwritesEntry | src/Backend/CacheRAM.php:101-107 | Incrementing a slot that holds a serialized entry replaces the entry by the increment itself |
| Entries.NewEntry | src/CacheData.php:45-52 | A new entry holds one data segment exactly when the initial data is truthy, has the given key and no dependencies |
| Entries.SetKey | src/CacheData.php:59-62 | Only the key changes |
| Entries.SetLifetime | src/CacheData.php:237-240 | Only the lifetime changes |
| Entries.AppendData | src/CacheData.php:150-155 | A data segment holding the value is added at the end exactly when the value is truthy; the earlier segments, dependencies, key and hash are unchanged |
| Entries.AppendOutput | src/CacheData.php:150-155 | Corrected append: any non-empty captured text is kept as a segment, '0' included; an empty capture or `false` adds nothing |
| Entries.AppendCallback | src/CacheData.php:69-72 | The callback is added as the last segment; dependencies unchanged |
| Entries.AddDependency | src/CacheData.php:198-202 | The key is appended even when already present, and the memoised hash is reset to '' |
| Entries.AddDependencies | src/CacheData.php:209-214 | The keys are appended in order; the hash is reset unless the list is empty |
| Entries.ResetDependencies | src/CacheData.php:224-227 | The dependency list becomes exactly the given keys. The hash is cleared when at least one key is added and kept when the list is empty |
| Entries.ClearDependenciesHash | src/CacheData.php:84-86 | The memoised hash is '' and nothing else changes |
| Entries.AppendRecursion | src/CacheData.php:172-179 | The key becomes a dependency and a 'recursion' segment for it is appended |
| Entries.AppendRecursionData | src/CacheData.php:181-191 | Fails with InvalidData exactly when the child has no key. Otherwise the child's key becomes a dependency and a 'recursiondata' segment holding only that key is appended |
| Entries.CheckClash | src/CacheData.php:247-249 | True exactly when the entry has a key equal to the given one |
| Entries.FirstData | src/CacheData.php:163-170 | The payload of the first data segment, or null when there is none |
| Entries.GetFirstData | src/CacheData.php:163-170 | The payload of the entry's first data segment, or null when it has none |
| Entries.FirstDataOfNewEntry | src/CacheData.php:163-170 | The data given to the constructor reads back through `getFirstData` when truthy, and as null otherwise |
| Entries.AppendDataSkipsFalsy | src/CacheData.php:150-155 | '', '0', 0, false and null add no segment |
| Entries.MergeDependencies | src/CacheData.php:79-82 | As written, the merge is fatal exactly when the two lists hold two or more keys together; otherwise it concatenates them |
| Entries.MergeDependenciesFixed | src/CacheData.php:79-82 | The corrected merge is the duplicate-free union of both lists |
| Entries.MergeFixedAgrees | src/CacheData.php:79-82 | Wherever the code as written succeeds, it agrees with the corrected merge |
| Deps.GetOne | src/CacheAbstract.php:191-200 | One index of `getMulti`. On an enabled store the value is the slot's contents. A miss is omitted (None) without the callback, and initialised to version 0 with `dependencyInit`. Only InvalidData escapes |
| Deps.GetMulti | src/CacheAbstract.php:189-203 | One result per key, in order, equal to the slots' contents after the call. With `dependencyInit` every key ends up present. The store changes only by version-0 counters put into empty slots of the given keys |
| Deps.GetMultiAllPresent | src/CacheAbstract.php:189-203 | When every key is present, `getMulti` returns their contents and leaves the store unchanged |
| Deps.GetMultiValid | src/CacheAbstract.php:189-203 | A `getMulti` that succeeds on an enabled store was given only valid keys |
| Deps.GenerateDependenciesHash | src/CacheData.php:104-118 | '' without dependencies. Otherwise the md5 of the concatenated dependency versions, after missing versions were initialised |
| Deps.CheckUpdateToDate | src/CacheData.php:93-102 | True without dependencies. Otherwise true exactly when the md5 of the current versions equals the memoised hash |
| Deps.GenerateIdempotent | src/CacheData.php:104-118 | Generating the hash again against the store the first generation left gives the same hash and store |
| Deps.UpdateDependenciesHash | src/CacheData.php:121-124 | Only the memoised hash changes, and right afterwards the entry checks as up to date without changing the store |
| Deps.UpdateDependenciesHashIfNull | src/CacheData.php:126-131 | A truthy memoised hash is kept; otherwise it is regenerated |
| Deps.SetDependencies | src/CacheData.php:223-230 | The dependencies become exactly the given keys; segments and key are kept. The generated hash is discarded: with at least one key the memoised hash is '', with none the old hash is kept and the store is not touched. Only InvalidData escapes |
| Deps.SetDependenciesFixed | src/CacheData.php:216-230 | Corrected: the new list is installed and its hash memoised, so the entry checks as up to date, without changes, against the store the call leaves |
| Deps.Unserialize | src/CacheData.php:304-306 | Only a stored entry unserializes to an entry; anything else is fatal when used as one |
| Deps.BaseGetData | src/CacheAbstract.php:168-174 | Disabled or an empty slot: NotCached. Array key parts: InvalidData. A plain value: fatal. A stored entry is returned exactly when the freshness check says true, NotCached when it says false, and a failing check's error is passed on. An entry returned was stored under the key and is up to date |
| Deps.GetData | src/Backend/CacheRAM.php:75-83 | As the inherited read in every case but one: a stale entry is deleted, and only its slot, before NotCached is raised. Disabled or empty: NotCached; array key parts: InvalidData; a plain value: fatal; an up-to-date entry is returned |
| Deps.GetDataFixed | src/Backend/CacheRAM.php:75-83 | The corrected read: a slot holding a plain value such as a counter is NotCached rather than fatal; otherwise it agrees with `getData` |
| Deps.StoreData | src/CacheAbstract.php:258-260 | The saved entry is the given one with the hash generated against the store memoised. A failing generation fails the call. Without a key it fails. Enabled with a valid key it succeeds and the slot holds the saved entry. Disabled, it reports false |
| Deps.Invalidate | src/CacheAbstract.php:219-221 | Disabled: 0 and no change. Array key parts: InvalidData. A fresh key gets version 0, a counter is bumped by one, and a slot holding an entry becomes 1. On success the slot holds the returned number. No other slot changes |
| Deps.Clean | src/CacheAbstract.php:280-282 | Every slot sharing the key's base and id is emptied, the key's own included; other buckets are untouched |
| Render.SegmentText | src/CacheData.php:259-282 | Data and callbacks render without the store; without recursion references render as ''. A 'recursion' segment renders the raw value as read, or passes the read's error on. A 'recursiondata' segment renders the entry `getData` returns, against the store `getData` leaves, or passes its error on; beyond the depth bound it is fatal |
| Render.StringifySegs | src/CacheData.php:257-286 | Rendering keeps the store's enabled flag and namespace and never raises a clash |
| Render.Stringify | src/CacheData.php:257-286 | Without recursion, the data and callback text in order with the store untouched. With recursion on a store where every reference can be followed, exactly the expansion (`Render.Expand`) with the store untouched |
| Render.RenderReady | src/CacheData.php:257-286 | On a store where every reference can be followed, recursive rendering of any segment list cannot fail, leaves the store alone and equals the expansion read straight off the store |
| Render.SegRenderReady | src/CacheData.php:259-282 | The same for one segment: a followable reference renders as the raw value or as the expansion of the child entry |
| Render.FlatRender | src/CacheData.php:257-286 | Rendering without recursion cannot fail and concatenates the data and callback texts |
| Render.RenderWithoutLinks | src/CacheData.php:259-282 | Segments without references render the same with or without recursion |
| Render.RenderAppend | src/CacheData.php:257-286 | The text of `a + b` is the text of `a` followed by the text of `b`, against the store `a` left |
| Render.FlatTextAppend | src/CacheData.php:285 | The flat text of a concatenation is the concatenation of the flat texts |
| Engine.Echo | src/CacheAbstract.php:588 | Echoed text extends the innermost buffer, or the page when no buffer is open; nothing else changes |
| Engine.ObStart | src/CacheAbstract.php:638 | A new empty innermost buffer |
| Engine.ObGetContents | src/CacheAbstract.php:616 | The innermost buffer's text, or false when none is open |
| Engine.ObClean | src/CacheAbstract.php:617 | The innermost buffer is emptied; the others are kept |
| Engine.ObGetClean | src/CacheAbstract.php:652 | The innermost buffer's text, with that buffer closed |
| Engine.CaptureRoundTrip | src/CacheAbstract.php:638-652 | Opening a buffer, echoing and taking the buffer back returns exactly the echoed text and restores the buffers |
| Engine.EchoExtendsInnermost | src/CacheAbstract.php:588 | Echoing leaves the outer buffers alone and extends the innermost |
| Engine.Enable | src/CacheAbstract.php:106-109 | The engine is enabled; the store contents are kept |
| Engine.Disable | src/CacheAbstract.php:116-119 | The engine is disabled; the store contents are kept |
| Engine.SetDefaultLifetime | src/CacheAbstract.php:132-134 | Only the default lifetime changes, to the given value |
| Engine.GetDefaultLifetime | src/CacheAbstract.php:136-138 | Setting the default lifetime just read changes nothing |
| Engine.IsEnabled | src/CacheAbstract.php:124-126 | True exactly when `enable()` would change nothing |
| Engine.Fresh | src/CacheAbstract.php:610-611 | A miss opens an empty frame keyed `k`. Its lifetime is the given one when non-zero and the default otherwise |
| Engine.Place | src/CacheAbstract.php:612 | The new frame is recorded at the new depth; the frames recorded elsewhere, stale ones included, are kept |
| Engine.ScanAll | src/CacheAbstract.php:619-629 | The loop throws exactly when some recorded frame that differs by value from the new one has key `k`. Otherwise every frame not equal to the new one gets `k` as a dependency |
| Engine.Push | src/CacheAbstract.php:609-641 | A miss. Nested, it fails with KeyClash exactly when the loop finds a frame other than the new one with key `k`, and the depth stays raised. Otherwise the parent gains its pending output, a reference to `k` and the dependency `k` twice. Other frames depend on `k`. The reply is false |
| Engine.PushFixed | src/CacheAbstract.php:609-641 | Corrected miss: a clash exactly when an open scope is keyed `k`, reported with nothing changed. Open scopes then never share a key |
| Engine.Nest | src/CacheAbstract.php:614-641 | The nested miss as written: a clash exactly when a recorded frame other than the new one by value has key `k`. Otherwise the parent keeps its key and lifetime, gains its pending output and the reference, and its hash is cleared |
| Engine.NestFixed | src/CacheAbstract.php:614-641 | The corrected nested miss: the open frames keep their keys and gain the dependency `k`, the parent also gains its pending output and the reference, and the child is placed on top |
| Engine.MissPath | src/CacheAbstract.php:605-612 | With `$fail`, NotCached with nothing changed; otherwise a push |
| Engine.Lookup | src/CacheAbstract.php:556-567 | An up-to-date entry from `getData` is found. NotCached from `getData` means none. Other errors escape |
| Engine.CheckAgain | src/CacheAbstract.php:558-560 | The second freshness check in `recursivestart` agrees with the first and changes nothing |
| Engine.HitPath | src/CacheAbstract.php:570-603 | A hit that renders returns its text, echoed when printing, with frames and depth unchanged. When rendering misses, the key is deleted. The miss is re-raised inside a scope and falls through to a push at the top level |
| Engine.StartWith | src/CacheAbstract.php:548-642 | Disabled: false. An up-to-date entry that renders is returned as text with no frame pushed and no dependency added. A miss goes to the miss path. Never returns null |
| Engine.RecursiveStart | src/CacheAbstract.php:548-642 | A miss raises the depth by one and records a frame keyed `k`, and `$fail` was false; a hit leaves frames and depth as they were |
| Engine.RecursiveStartFixed | src/CacheAbstract.php:619-629 | With the corrected check, a clash means `k` is open, a miss means it is not, and open scopes keep distinct keys |
| Engine.Start | src/CacheAbstract.php:322-326 | `start` is `recursivestart` with the key unchanged |
| Engine.RecursiveEnd | src/CacheAbstract.php:644-687 | Disabled: false and nothing changes. No scope open: fatal, with the buffer already taken. Otherwise the innermost scope is closed (`Engine.CloseScope`). The result always satisfies the engine invariant |
| Engine.SaveInnermost | src/CacheAbstract.php:650-660 | The captured output is appended to the innermost frame and the entry is stored under the frame's key with its hash memoised; on an enabled store the slot then holds the saved entry |
| Engine.CloseScope | src/CacheAbstract.php:650-687 | A nested scope closes through `Engine.CloseInner`, the outermost through `Engine.CloseOuter`; the engine invariant holds afterwards |
| Engine.CloseInner | src/CacheAbstract.php:650-665 | Nested: the saved entry replaces the innermost frame and sits in the store under its key; the depth drops by one, the reply is false, the enclosing buffer is back and nothing is printed |
| Engine.CloseOuter | src/CacheAbstract.php:650-687 | Outermost: the saved entry replaces the frame and is rendered with recursion against the store the save left. Not printing, its text is returned. Printing, the same text is echoed into the enclosing buffer and null returned |
| Engine.AfterSave | src/CacheAbstract.php:650-663 | After the save, the depth is one lower, the innermost frame is the saved entry (the captured output appended when truthy, key and dependencies kept) and every other frame is unchanged |
| Engine.OuterReplyExpands | src/CacheAbstract.php:667-686 | Closing the outermost scope on a store where every reference of the saved entry can be followed returns (or prints) exactly its expansion, and the entry stays stored under its key |
| Engine.End | src/CacheAbstract.php:693-695 | `end` is `recursiveEnd` |
| Engine.AppendCallbackToScope | src/CacheAbstract.php:361-378 | A non-callable argument is fatal. Disabled or outside any scope: false. Otherwise the pending output and then the callback are appended to the innermost frame |
| Engine.StartCallback | src/CacheAbstract.php:342-349 | A truthy reply of `start` is returned as is; after a falsy one the callback runs, the scope is closed and the reply is returned |
| Engine.StartCallbackFixed | src/CacheAbstract.php:342-349 | Corrected: a hit is returned as is, whatever its text; only a miss runs the callback and closes the scope it opened |
| Freshness.GetMultiSucceeds | src/CacheData.php:104-118 | With `dependencyInit`, `getMulti` over valid keys on an enabled store cannot fail |
| Freshness.UnchangedVersionsStayFresh | src/CacheData.php:93-118 | An entry up to date in one store is up to date, without changes, in any store whose dependency slots hold the same values |
| Freshness.StoreDataFresh | src/CacheAbstract.php:258-260 | An entry stored with `storeData` that does not depend on its own slot is in the store and up to date against the store the call leaves |
| Freshness.StoreThenGetData | src/CacheAbstract.php:258-260 | An entry stored with `storeData` that does not depend on its own slot comes back from `getData` as saved, and reading it changes nothing |
| Freshness.ImplodeCounter | src/CacheData.php:117 | A single counter dependency digests as the counter's decimal text |
| Freshness.ImplodeReplaced | src/CacheData.php:117 | Replacing one or more occurrences of a value by a value whose text differs changes the imploded text, whatever the other values are |
| Freshness.ReplacedSlotMakesStale | src/CacheData.php:93-118 | An up-to-date entry goes stale when the slot of any one of its dependencies gets a value that reads differently and no other slot changes (md5 assumed injective) |
| Freshness.InvalidateMakesStale | src/CacheAbstract.php:219-221 | An up-to-date entry with present, valid dependencies goes stale after `invalidate` on any dependency that holds a counter (md5 assumed injective) |
| Freshness.RestoredChildMakesParentStale | src/CacheData.php:93-118 | An up-to-date entry goes stale when a different child is stored under any of its dependency keys (md5 and entry serialization assumed injective) |
| Freshness.DeleteThenInvalidateRestoresVersionZero | src/Backend/CacheRAM.php:101-107 | Deleting and then invalidating any dependency that held version 0 restarts it at 0, so an entry that was up to date is up to date again |
| Freshness.StoreInvalidateGetData | test/CacheBasicTest.php:247-276 | The dependency test: the stored entry reads back; after `invalidate` on its dependency `getData` misses and the entry is gone (md5 assumed injective) |
| NullStore.GetK | src/Backend/CacheNull.php:42-44 | Every read is NotCached |
| NullStore.IncrementK | src/Backend/CacheNull.php:46-48 | The default is returned whatever the increment |
| NullStore.StoreK | src/Backend/CacheNull.php:50-52 | Reports success |
| NullStore.DeleteK | src/Backend/CacheNull.php:54-56 | Reports success |
| NullStore.Clean | src/Backend/CacheNull.php:58-60 | Reports success |
| NullStore.Clear | src/Backend/CacheNull.php:62-64 | Reports success |
| NullStore.StartK | src/Backend/CacheNull.php:66-68 | Never a hit |
| NullStore.End | src/Backend/CacheNull.php:70-72 | Returns '' |
| NullStore.NullIsDisabledRam | src/Backend/CacheNull.php:42-52 | The null store answers reads and increments as a disabled RAM store does, and differs on `store`, which it reports as true |
| NullStore.NullForgets | src/Backend/CacheNull.php:42-52 | A value stored into the null store still reads back as NotCached |
| LogEnum.Names | src/CacheLogEnum.php:19-28 | Six constants, each with its label |
| LogEnum.GetAll | src/CacheLogEnum.php:35-37 | The keys of the name table, in order |
| LogEnum.Valid | src/CacheLogEnum.php:46-48 | True exactly for a key of the name table |
| LogEnum.GetName | src/CacheLogEnum.php:57-63 | A valid value's label; otherwise 'Invalid: ' followed by the escaped value |
| LogEnum.KeysDistinct | src/CacheLogEnum.php:12-28 | The six constants are distinct, so each has exactly one label |
| LogEnum.ValidIffListed | src/CacheLogEnum.php:35-48 | Exactly the six constants are valid, and `getAll` lists them in declaration order |
| LogEnum.GetNameExamples | src/CacheLogEnum.php:57-63 | 'saved' is labelled 'Saved'; an unknown value is reported as invalid |
| Scenarios.FirstStartMisses | src/CacheAbstract.php:548-612 | With no scope open, a start on a key whose slot is empty misses, opens one scope with a fresh frame and one buffer, and does not touch the store |
| Scenarios.SingleScopeRoundTrip | test/CacheStartEndTest.php:17-35 | On any enabled store with the key's slot empty and no scope open: start misses, end returns the captured text (when PHP finds it truthy), a second start is a hit returning the same text, and the buffers are restored |
| Scenarios.NestedScopes | src/CacheAbstract.php:548-687 | Two nested scopes from an empty store, echoing a, b and c, return a+b+c at the outer end. The outer entry holds a, a reference to the inner key, and c, and depends on the inner key twice |
| Scenarios.NestedStartRecords | src/CacheAbstract.php:614-631 | The nested start moves the parent's pending text into the parent and records the child reference and dependency |
| Scenarios.PushOntoOne | src/CacheAbstract.php:614-631 | A push onto one open frame keyed differently does not clash. The frame gains the pending text, the reference and the child key twice |
| Scenarios.PushIntoOne | src/CacheAbstract.php:614-631 | With pending text `a`, the parent ends up holding `a` and the reference, the outer scope's buffer is emptied, and an empty buffer is opened for the inner scope |
| Scenarios.NestedInnerCloses | src/CacheAbstract.php:548-666 | Outer start, inner start and inner end from an empty store: the outer frame holds `a` and a reference to the inner key, and the inner entry holding `b` is stored |
| Scenarios.NestedOuterCloses | src/CacheAbstract.php:644-687 | From the state the inner end leaves, the outer end returns a+b+c and restores the buffers |
| Scenarios.InnerEndStores | src/CacheAbstract.php:651-666 | The inner end stores the child under its key and returns to depth 1 |
| Scenarios.OuterEndRenders | src/CacheAbstract.php:651-686 | The outer end stores the parent and returns its expansion a+b+c |
| Scenarios.RenderOuter | src/CacheData.php:257-286 | A reference to an up-to-date child expands to the child's text between its neighbours |
| Findings.TestClashMissed | test/CacheTest.php:434-450 | As written, a start on an open scope's own key misses instead of clashing; the corrected check clashes |
| Findings.StaleFrameClash | src/CacheAbstract.php:612-629 | As written, a closed scope's frame above the depth causes a clash; the corrected check opens the scope |
| Findings.ZeroOutputLost | src/CacheData.php:150-155 | A scope echoing '0' caches and returns '' |
| Findings.ZeroOutputKept | src/CacheData.php:150-155 | The corrected append keeps any non-empty captured text, '0' included, at the end of the entry's text |
| Findings.InvalidatedEntryIsFatal | src/CacheAbstract.php:219-221 | `invalidate` on an entry's own key turns it into the counter 1, and `getData` on it is then fatal; the corrected read misses |
| Findings.EmptyHitCrashes | src/CacheAbstract.php:342-349 | At the top level, a hit rendering to '' makes `startCallback` call `end` with no open scope, which is fatal; the corrected test returns the hit |
| Findings.MergeTwoKeysFails | src/CacheData.php:79-82 | Merging two entries with one key each is fatal as written; the corrected merge keeps both keys |
| Findings.SetDependenciesLeavesStale | src/CacheData.php:216-230 | With at least one valid key, `setDependencies` returns an entry with hash '', which is stale at once (md5 assumed to answer 32 characters); the corrected version returns an up-to-date entry |

## Left out

- `newstart` / `newEnd` (src/CacheAbstract.php:417-506): unfinished and not reachable from `start` / `end`.
- The secondary store in `recursiveEnd` (src/CacheAbstract.php:658-659).
  - It passes a string where a `CacheKey` is required, so it is not modelled.
  - The hash generated at line 657 is modelled only for its effect on the store. `Deps.GenerateIdempotent` shows that the `storeData` call right after it repeats that effect.
- Debug probes, `log`, the static summary counters, `dumpSummary`, `footerDebug`, `report` and `rand()` probe ids: presentation and global mutable state.
- `factory`, `singleton`, `clearAll`: reflection over declared classes and process-wide singletons.
- `extraSub`: modelled as leaving the key unchanged, which is what it does when the application hook `application_cacheDependencies` is not defined. The hook is application code.
- `limitRAM`: it depends on the interpreter's memory usage.
- `prefetch` (a no-op in CacheRAM) and `getMemoryLimit` / `setMemoryLimit`: no behaviour to model.
- The Memcached, filesystem and APC stores, and the older copy under src/backends: network and file I/O, and they are not the store the engine is verified against.
- `RamStore.HashKey`: modelled for completeness. The RAM paths index by bucket and sub and never call it.
- md5, `serialize`, `htmlspecialchars`, `is_callable` and callback results are parameters.
  - Serialized entries are stored as the entry itself.
  - A callback run by `startCallback` is modelled by the text it echoes.
- Floats, objects other than entries, and numeric-string details beyond a leading integer are not modelled. PHP 7's `+=` on a serialized entry reads it as 0.
- PHP's loose `==` is modelled as structural equality of values. This covers entries, keys, and md5 strings in `checkUpdateToDate`. The "0e…" digest coincidences are left out.
- Exception class names are not resolved across namespaces. Every NotCached is caught where the code means to catch it.
- A null lifetime is written 0. Both are falsy, so both select the default lifetime.
- `recursiveEnd` calls `storeData` without a lifetime, so a frame's lifetime never reaches the store. The RAM store ignores lifetimes anyway.
- Render.SegmentText, Render.StringifySegs, Render.Stringify: rendering takes a depth bound (`Env.depthLimit`). Running out stands for PHP exhausting its stack on a cyclic store. Nesting deeper than the bound is not modelled.
- Render.StringifySegs: its contract states only what rendering preserves. The text it produces is stated by `Render.SegmentText`, `Render.RenderReady`, `Render.FlatRender` and `Render.RenderAppend`.
- Engine.StartCallback: the contract states the pass-through of truthy replies and the reply after a falsy one. What happens to a falsy hit is shown by `Findings.EmptyHitCrashes`.
- Engine.RecursiveStart: the contract states depth and frames only. Its replies are stated by `Engine.StartWith`, which it calls with the clash loop as written.
- `CacheNull` does not implement the abstract `get`/`store`/`increment`/… of src/CacheAbstract.php. Its own methods carry a `K` suffix, and its `clean($base, $id)` does not match the abstract `clean(CacheKey)`. Only its constant answers are modelled.
- `getMulti` returns an array whose omitted indices are absent. The model keeps one position per key and writes an omitted index as None. `implode` skips both alike.
- The start/end suite's test of three sibling scopes inside one (test/CacheStartEndTest.php:45-69) and its four-level nesting test (test/CacheStartEndTest.php:78-103) are not modelled as instances. The engine contracts cover each step they take, and `Scenarios.NestedScopes` runs a two-level instance of the same pattern.

## Findings

| source | as written | input that shows it | evidently intended | confidence | as-written member | corrected member |
|---|---|---|---|---|---|---|
| src/CacheData.php:150-155 | `appendData` keeps only truthy data, and `recursiveEnd` passes the captured output through it | A scope whose body echoes '0' is stored empty, and `end(false)` returns '' (Findings.ZeroOutputLost) | Captured output is kept whenever it is non-empty | high (not executed) | Entries.AppendData | Entries.AppendOutput |
| src/CacheAbstract.php:619-627 | The clash loop visits every recorded frame, including frames of scopes already closed above the current depth | Scopes a, b, c opened and c, b closed, c then removed from the store; `start(c)` inside a throws a clash although c is not open (Findings.StaleFrameClash) | Only open ancestors are checked | high (not executed) | Engine.Push | Engine.PushFixed |
| src/CacheAbstract.php:621 | The self-skip `$l == $cd` compares by value, so an open ancestor with the same key and no content yet equals the new frame and is skipped | `startP('testClash', 0)` twice in a row: the second start misses instead of throwing the clash the test expects (Findings.TestClashMissed) | The new frame alone is skipped (by identity or position) | high (not executed) | Engine.ScanAll | Engine.RecursiveStartFixed |
| src/CacheData.php:79-82 | `array_unique` converts its elements to strings, and a `CacheKey` cannot be converted | Merging an entry depending on one key with an entry depending on another is fatal (Findings.MergeTwoKeysFails) | The union of both dependency lists without duplicates | high (not executed) | Entries.MergeDependencies | Entries.MergeDependenciesFixed |
| src/CacheAbstract.php:219-221 | `invalidate` increments the slot even when it holds a serialized entry, which PHP 7 reads as 0 | `invalidate(k)` on a cached fragment's own key stores 1, and the next `getData(k)` calls a method on `false` (Findings.InvalidatedEntryIsFatal) | The fragment is treated as not cached | medium (not executed) | Deps.GetData | Deps.GetDataFixed |
| src/CacheAbstract.php:342-349 | `startCallback` tests the reply of `start` for truthiness | A cached fragment rendering to '' or '0' at the top level: the callback runs and `end` is called with no scope open, which is fatal (Findings.EmptyHitCrashes) | Only a miss (`false`) runs the callback | high (not executed) | Engine.StartCallback | Engine.StartCallbackFixed |
| src/CacheData.php:216-230 | `setDependencies` generates the dependency hash and discards it, while `addDependency` clears the memoised hash | `setDependencies([k], $cache)` on an enabled store: the entry's hash is '' and the next freshness check says stale (Findings.SetDependenciesLeavesStale) | The generated hash is memoised, as the method's comment says | medium (not executed) | Deps.SetDependencies | Deps.SetDependenciesFixed |
