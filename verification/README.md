# duck-storage core, modelled in Dafny

duck-storage is an embeddable document store. Documents live in named
collections called *racks*. Every write goes through a fixed life cycle of
`before`/`after` hooks, and plugins observe or veto those hooks: the lock
plugin, the in-memory backing store and the unique-key enforcer. This project
models that core as pure functions over immutable datatypes and proves what
each operation promises.

The repository ships the rack twice, and the two versions are modelled
separately:

- **src** (`src/lib/...`): the first version. `Hooks.trigger` threads the
  payload from one callback's return value to the next. The rack keeps an
  array `store` and a key map `storeKey` and bumps `_v` on every update.
- **dist** (`dist/duck-storage.js`): a later bundle. `Hooks.trigger` hands the
  same payload object and one rollback list to every callback. `update` skips
  entries that did not change. The storage adds `removeRack` and `listRacks`,
  and the bundle vendors a BSON `ObjectID` hex codec.

Modules, one per component:

| module | file | what it models |
|---|---|---|
| `Results` | results.dfy | errors (`Error`, `TypeError`, `ErrorHook`) and the failure-compatible `Result`/`Outcome`, and the `Reading` switch |
| `JsValues` | js_values.dfy | JavaScript values: objects as ordered property lists in `Object.keys` order, truthiness, `typeof`, `===`, `Object.assign`, `String(v)`, `+ 1`, hexadecimal digits |
| `Paths` | paths.dfy | dotted paths: `split('.')`, lookup by path (`Utils.find`, lodash `get`), `pathToObj` |
| `Hooks` | hooks.dfy | the src hook registry and `trigger` |
| `Lock` | lock.dfy | the lock plugin: the locked-id set, `doLock`, and the create, update, delete and apply hooks |
| `InMemoryDb` | in_memory_db.dfy | the in-memory backing store's per-rack map and its hooks |
| `Sorting` | sorting.dfy | `toIndex`, `calcIndex` and the multi-pass `sortArray` |
| `UniqueKeys` | unique_keys.dfy | key grouping, the `$or`/`$and`/`$eq` collision query, the failing-key list |
| `QueryTypes` | query_types.dfy | the `Query` and `Sort` schema types |
| `Rack` | duck_rack.dfy | the src `DuckRack` |
| `Registry` | registry.dfy | the rack registry of both versions |
| `Uuid` | uuid.dfy | the `uuid()` template and `UUIDPattern` |
| `ObjectId` | object_id.dfy | the bundled `ObjectID`: `isValid`, `hex`, `buffer`, the string constructor, `str`, `equals` |
| `DistHooks` | dist_hooks.dfy | the dist `Hooks.trigger`, with the lock and store hooks as callbacks on a shared context |
| `DistRack` | dist_rack.dfy | the dist `DuckRack.update` |

**Parameters in place of foreign code.** Some calls go into libraries that are
not modelled. Each becomes a parameter:

- `sift` matching is a `Matcher`, a function `(query, document) -> bool`.
- The schema engine's `parse` is a function `Value -> Result<Value>`.
- In `Sort.parse`/`Query.parse`, parsing an operand or a plain object is also
  a parameter.
- `Utils.obj2dot(sort)` is passed in as the list of leaf paths.
- The `ObjectID` that the dist constructor would generate from the clock is a
  parameter `generated`.
- `duckModel.getModel(entry)` is the entry itself.

**Conventions.** A callback that throws is taken to change nothing before it
throws. `cloneDeep` is value semantics, so the copy that before:findOneById
pushes can never alias the stored entry. `trigger` takes the hook registry as
an input and returns only the payload, so a run cannot change the registry.
deep-object-diff's `detailedDiff` is a parameter `(Value, Value) -> Value`;
the bundle's own `objectHasBeenModified` scan over it is modelled. Its `diff`,
which the unique-key plugin calls, is a parameter too; what the model assumes
of it is `UniqueKeys.DiffRule`, the library's first two branches: strictly
equal sides give `{}`, and otherwise a side that is not an object gives the
right-hand side itself.

**Two readings.** Where the code and its evident intent part (see Findings),
the operations that depend on it take a `Reading`: `AsWritten` follows the
code, `Corrected` the intended behaviour. This covers `doLock` in the lock
hooks, the rollback in the dist `trigger`, the failing-key list of
`checkPrimaryKeys` and `objectHasBeenModified` in the dist `update`. Every
contract holds under both readings unless it names one.

**Where the code and its own comments or evident design differ, the model follows the code:**

- The dist `trigger` never calls the rollback closures on a failure
  (dist/duck-storage.js:771): `Promise.all(rollback)` over functions returns
  them uncalled. The lock hooks push an unlock closure onto that list for the
  very purpose of being undone (dist/duck-storage.js:108-121), and line 770
  carries `// todo: throw hook error` (Findings, row 4).
- The src `create` fires before:create before it parses the entry, not
  after.
- A failing unique key is computed with the path array as one nested path,
  not by comparing the key's values (Findings, row 2), and is one whose
  `diff` has no own keys: two different numbers or booleans, or an empty
  string on the right, count as agreeing, and an undefined right-hand side
  throws a TypeError from `Object.keys` (Findings, row 6).
- A patch `_v` is only checked when it is truthy, so `_v: 0` passes the
  version check.
- The dist `update` counts an entry as modified only when the first changed
  value it meets has keys of its own (Findings, row 5).
- The dist `update` runs `this.find(query, state, true)`, which overwrites
  `state.method` with `'find'`, so its update hooks see `method: 'find'`.
- The dist bundle installs only the reference loader, unique keys and lock
  plugins (dist/duck-storage.js:1308). The in-memory store of
  src/lib/plugins/in-memory-db.js is not part of it. `DistHooks.StoreBeforeUpdate`
  shows what that store's before:update hook does when a storage is given it
  through `plugin`.

## Model

| member | source | states |
|---|---|---|
| Hooks.Register | src/lib/hooks.js:8-10 | `hook` appends exactly one record (lifeCycle, hookName, cb) at the end; every earlier record is kept in place |
| Hooks.MatchedRegister | src/lib/hooks.js:8-18 | registering a callback adds it, last, to the matched list of its own (lifeCycle, hookName) pair only; every other pair's matched list is unchanged |
| Hooks.MatchedAppend | src/lib/hooks.js:13-18 | the filter keeps registration order: selecting from `a + b` is selecting from `a`, then from `b` |
| Hooks.ChainStopped | src/lib/hooks.js:20-27 | when a run stops at callback i, every earlier callback returned, callback i threw, and it was given what callback i-1 returned |
| Hooks.ChainAppend | src/lib/hooks.js:20-27 | running `a + b` runs `b` on what `a` returned; once a callback throws, no later callback runs |
| Hooks.Fire | src/lib/hooks.js:12-30 | with no matching hook the payload comes back untouched; a failure is an `ErrorHook` carrying the hook name, the life cycle and the cause, with the cause's message |
| Hooks.Trigger | src/lib/hooks.js:12-30 | the loop runs all matched callbacks and returns the last return value, or stops after callback i+1 with the `ErrorHook`; it agrees with the reference run |
| Lock.Acquire | src/lib/plugins/lock.js:33-41 | a free id becomes locked and no other id changes; a held id fails with `lock time-out for _id <id>` |
| Lock.Release | src/lib/plugins/lock.js:43-46 | `unlock` frees the id whoever locked it; every other id keeps its status |
| Lock.ReleaseUndoesAcquire | src/lib/plugins/lock.js:33-46 | unlocking an id just locked gives back the lock set from before |
| Lock.DoLockAsWritten | src/lib/plugins/lock.js:4-16 | `doLock` as written: true for non-objects (undefined, primitives, arrays); false for an object (including `null`) without `lock.skip`; `!lock.skip` otherwise |
| Lock.DoLock | src/lib/plugins/lock.js:10-16 | the corrected decision: lock exactly when `lock.skip` is falsy |
| Lock.DoLockAsWrittenDiffers | src/lib/plugins/lock.js:10-16 | the two decisions differ exactly on objects whose `lock.skip` is nil |
| Lock.DoLockAsWrittenSkipsEmptyState | src/lib/plugins/lock.js:12 | the empty state `{}` is never locked as written, and is locked as corrected |
| Lock.Decide | src/lib/plugins/lock.js:4-16 | the decision the lock hooks take: as written the bundle's `doLock`; as corrected, lock exactly when `lock.skip` is falsy |
| Lock.DoLockSkipFalse | src/lib/plugins/lock.js:10-16 | a state `{ lock: { skip: false } }` is locked under both readings |
| Lock.BeforeWrite | src/lib/plugins/lock.js:60-86 | a before:create/update/delete hook fails exactly on a missing payload or target, or on a held id it must lock; on success it pushes exactly one unlock closure for the id, locked or not, and locks only when the decision of its reading holds |
| Lock.BeforeWriteRollback | src/lib/plugins/lock.js:60-86 | running the pushed closure frees the id, and restores the lock set when the id was free before |
| Lock.AfterWrite | src/lib/plugins/lock.js:76-91 | after:update unlocks `oldEntry._id` and after:delete unlocks `entry._id`; a missing payload or target throws |
| Lock.UpdateLocksThenUnlocks | src/lib/plugins/lock.js:68-78 | before:update then after:update leaves the id free and every other id as it was |
| Lock.BeforeApply | src/lib/plugins/lock.js:52-58 | before:apply sets `state.lock.skip` to true and leaves the other keys of the state alone; a nil state throws |
| Lock.ApplySkipsLocking | src/lib/plugins/lock.js:52-58 | after before:apply no write hook locks, either as written or as corrected |
| InMemoryDb.Install | src/lib/plugins/in-memory-db.js:47 | installing on a rack gives it an empty map and leaves the other racks' maps alone |
| InMemoryDb.BeforeCreate | src/lib/plugins/in-memory-db.js:48-53 | stores a copy of the entry with `_id` stringified, under that id, in this rack's map only; a nil entry or id throws |
| InMemoryDb.BeforeUpdate | src/lib/plugins/in-memory-db.js:55-58 | overwrites the entry stored under `entry._id` and appends `entry` to `result`; no other key or rack changes |
| InMemoryDb.BeforeDeleteById | src/lib/plugins/in-memory-db.js:60-67 | fails exactly on a nil payload, an unknown rack, or a truthy stored entry with no `result` array to push onto; a truthy stored entry is removed and appended to `result`, every other key and rack kept; an absent id changes neither the map nor `result` |
| InMemoryDb.CreateThenDelete | src/lib/plugins/in-memory-db.js:48-67 | deleting by id what was just created reports the stored copy and leaves every other key as it was before the create |
| InMemoryDb.RunQuery | src/lib/plugins/in-memory-db.js:38-40 | `runQuery` keeps only stored entries that match |
| InMemoryDb.RunQueryComplete | src/lib/plugins/in-memory-db.js:38-40 | every stored entry that matches is kept |
| InMemoryDb.FindOneQuery | src/lib/plugins/in-memory-db.js:84-90 | the findOneById query is `{ _id: String(_id) }`, plus `_v` exactly when `_v` is truthy; a nil id throws |
| InMemoryDb.RunQueryFirst | src/lib/plugins/in-memory-db.js:38-40 | the filtered list is empty exactly when no stored entry matches, and its first element is the first matching entry |
| InMemoryDb.FirstHit | src/lib/plugins/in-memory-db.js:93-97 | at most one entry: the first matching stored entry when it is truthy, nothing when none matches |
| InMemoryDb.BeforeFindOneById | src/lib/plugins/in-memory-db.js:82-99 | a non-empty `result` is returned untouched; with an empty one, the parsed `{ _id, _v }` query pushes the first stored entry it matches when that is truthy, and nothing when none matches; a failing parse or unknown rack fails; a nil payload or `result` throws |
| InMemoryDb.BeforeList | src/lib/plugins/in-memory-db.js:68-81 | succeeds exactly when the payload and rack exist, the query parses, and `result` is an array whenever there are hits; with no hits `result` is left alone; otherwise the hits follow what `result` held, as a permutation of the matches, in store order without a sort and sorted by the first path under a string sort |
| Sorting.BooleansCompareAsOneAndMinusOne | src/lib/plugins/in-memory-db.js:10-27 | a boolean operand compares exactly as 1 (`true`) or -1 (`false`) would, against any value and for any direction that is numeric once the default 1 stands in for a missing one |
| Sorting.FalseBeforeTrue | src/lib/plugins/in-memory-db.js:10-32 | an ascending pass puts `false` before `true`, and a `false` direction (which `toIndex` makes -1) puts it after |
| Sorting.CalcIndex | src/lib/plugins/in-memory-db.js:16-28 | an undefined factor is the default 1; equal operands give 0; two strings give the factor or its negation by `>`; other operands give `(toIndex(a) - toIndex(b)) * factor` |
| Sorting.UndefinedFactorAscends | src/lib/plugins/in-memory-db.js:16-23 | leaving the factor out compares exactly as factor 1 does, so a greater string sorts after a smaller one |
| Sorting.CalcIndexAntisymmetric | src/lib/plugins/in-memory-db.js:21-23 | for distinct strings, swapping the operands negates the comparison |
| Sorting.SortArray | src/lib/plugins/in-memory-db.js:30-35 | `sortArray` returns a permutation of its input |
| Sorting.SortArrayFirstPathLast | src/lib/plugins/in-memory-db.js:30-35 | passes run in reverse declaration order, so the first declared path is sorted last |
| Sorting.SortArrayByStringPath | src/lib/plugins/in-memory-db.js:30-35 | when the first declared path holds strings and has a numeric direction, the output is sorted by that path |
| Sorting.SortWithSorted | src/lib/plugins/in-memory-db.js:31-33 | one pass with a total preorder yields a sorted sequence |
| Sorting.SortWithStable | src/lib/plugins/in-memory-db.js:31-33 | a pass is stable: elements that never compare greater than one another keep their input order, whatever lies between them |
| Sorting.SortArrayTiesKeepOrder | src/lib/plugins/in-memory-db.js:30-35 | entries that tie on the first declared path keep the order the passes for the later paths gave them |
| UniqueKeys.KeyName | src/lib/plugins/unique-keys.js:8-9 | a field has a key exactly when `unique` is truthy; `unique: true` names it by `fullPath`, a string names it by itself |
| UniqueKeys.GroupPaths | src/lib/plugins/unique-keys.js:7-15 | each key holds the paths of the fields naming it, in schema-child order |
| UniqueKeys.GroupNames | src/lib/plugins/unique-keys.js:7-15 | key names are distinct, and a name is a key exactly when some field names it |
| UniqueKeys.CollisionQueryMeaning | src/lib/plugins/unique-keys.js:18-25 | the `$or` of `$and` of `$eq` query matches a document exactly when some key's paths all read the same in it as in the entry |
| UniqueKeys.NoDiffScalar | src/lib/plugins/unique-keys.js:35 | under deep-object-diff's rule for non-objects, the as-written test `Object.keys(diff(a, b)).length === 0` holds for equal sides and for any number or boolean on the right, holds for a string on the right only when it is empty, and throws a TypeError for a nil right-hand side |
| UniqueKeys.FailingKeysAsWrittenThrows | src/lib/plugins/unique-keys.js:31-37 | as written, the failing-key filter throws exactly when some key's test throws, and then with the error of the first such key |
| UniqueKeys.FailingKeysAsWrittenMeaning | src/lib/plugins/unique-keys.js:31-37 | as written and when no test throws, a key is listed exactly when `diff` of its path array read as one nested path in the found document and in the entry has no own keys |
| UniqueKeys.ScalarKeyReportedAsWritten | src/lib/plugins/unique-keys.js:31-37 | as written, a key on which the documents hold different numbers is reported beside the key they share; corrected, only the shared key is |
| UniqueKeys.MissingKeyThrowsAsWritten | src/lib/plugins/unique-keys.js:31-37 | as written, an entry that lacks a key's field makes the check throw a TypeError instead of the collision error; corrected, the colliding key is reported |
| UniqueKeys.FailingKeysAsWrittenCounterexample | src/lib/plugins/unique-keys.js:31-37 | with an `email` key and a two-field `fullName` key, an email collision is reported as both keys failing |
| UniqueKeys.FailingKeysMeaning | src/lib/plugins/unique-keys.js:31-37 | corrected: a key is reported exactly when every path of it reads the same in the found document and the entry |
| UniqueKeys.CheckPrimaryKeys | src/lib/plugins/unique-keys.js:17-41 | no match accepts the entry; a first match is rejected exactly when its `_id` is not `===` the entry's, with `primary keys (<keys>) failed for document` listing the failing keys of the reading, or, as written, with the error a failing-key test throws; a nil match or entry throws; success returns the entry |
| UniqueKeys.CheckPrimaryKeysReportsCollision | src/lib/plugins/unique-keys.js:17-37 | corrected: when the first document the collision query finds is another document, the entry is rejected and the message names exactly the keys on which the two agree, at least one |
| UniqueKeys.BeforeUpdate | src/lib/plugins/unique-keys.js:43-51 | fails exactly when `checkPrimaryKeys(entry)` does, with its error; otherwise returns `{ oldEntry, newEntry, entry }` unchanged |
| QueryTypes.OperatorKeysEmpty | src/lib/types/query.js:45 | the `$`-key filter is empty exactly when no key starts with `$` |
| QueryTypes.IsOperator | src/lib/types/query.js:44-46 | `isOperator` is true exactly when some own key starts with `$`; nil throws |
| QueryTypes.Cast | src/lib/types/query.js:47-52 | a defined string, number or boolean at a non-`$` name becomes `{ $eq: v }`; everything else is returned unchanged |
| QueryTypes.CastIdempotent | src/lib/types/query.js:47-52 | casting twice is casting once, and the `$eq` operand is the original scalar |
| QueryTypes.CastIsOperator | src/lib/types/query.js:47-52 | a value that cast changed is an operator object |
| QueryTypes.QueryParse | src/lib/types/query.js:53-83 | an empty object parses to itself; an unknown first operator fails with `Unknown operator <key>`; a successful operator parse has exactly the input's first key |
| QueryTypes.QueryValidate | src/lib/types/query.js:84-88 | rejects with `Invalid operator` exactly an operator object with more than one key |
| QueryTypes.ParseThenValidate | src/lib/types/query.js:53-88 | what a successful operator parse produces, and what cast produces, passes validation |
| QueryTypes.SortParseAsWritten | src/lib/types/sort.js:24 | as written every `Sort.parse` call throws a TypeError |
| QueryTypes.SortParse | src/lib/types/sort.js:23-53 | corrected: an empty object parses to itself; a first operator other than `$sort` fails with `Unknown operator <key>`; success keeps the first key only |
| QueryTypes.SortParseAsWrittenRejectsSort | src/lib/types/sort.js:23-53 | a `{ $sort: ... }` spec throws as written and parses as corrected whenever its operand does |
| QueryTypes.SortValidate | src/lib/types/sort.js:54-58 | rejects with `Invalid sorter` exactly a sort-operator object with more than one key |
| Rack.NewRack | src/lib/duck-rack.js:39-47 | a falsy name throws `A name must be provided for a DuckRack`; otherwise the rack starts empty |
| Rack.ValidateEntryVersion | src/lib/duck-rack.js:247-260 | the three rejections, each with its exact condition: non-object, non-number `_v`, and an older truthy `_v` |
| Rack.NormalizeQuery | src/lib/duck-rack.js:235-242 | a non-object query becomes `{ _id: { $eq: query } }`; an object query is kept |
| Rack.NormalizeIsCast | src/lib/duck-rack.js:235-242 | the normal form of a scalar query is the `Query.cast` of it at `_id`, and normalising twice is normalising once |
| Rack.Find | src/lib/duck-rack.js:235-245 | `find` fails exactly when parsing the normalised query fails; otherwise it returns the stored entries at the positions the query matches, in store order |
| Rack.HitsPickRunQuery | src/lib/duck-rack.js:109-111 | the match positions, read back from the store, are exactly the filtered store |
| Rack.RunQueryAppend | src/lib/duck-rack.js:109-111 | filtering distributes over concatenation, so matches keep insertion order |
| Rack.Create | src/lib/duck-rack.js:113-136 | a before:create failure, a non-object entry or a taken truthy `_id` leaves the rack unchanged with the matching error; success means the parsed before:create payload was appended to `store` and filed in `storeKey` under its id, no other key changed, and after:create's result returned; without hooks a valid free entry that parses is always created |
| Rack.CreateThenList | src/lib/duck-rack.js:113-214 | after a create, `list()` returns the earlier entries in order, followed by the new one |
| Rack.List | src/lib/duck-rack.js:210-214 | no query lists the store as it is; a truthy query fails exactly when it does not parse, and otherwise lists, in store order, exactly the stored entries that match it |
| Rack.CheckPatch | src/lib/duck-rack.js:152-162 | a match passes exactly when a truthy patch `_id` is `===` its `_id` and a truthy patch `_v` is its version; a nil patch throws |
| Rack.MergeReads | src/lib/duck-rack.js:165 | the merged entry reads the patch where the patch has a key, the old entry elsewhere, and `_v` is the old version plus one |
| Rack.MergePassesVersionCheck | src/lib/duck-rack.js:165 | the version `update` writes passes the version check against the entry it replaces |
| Rack.Update | src/lib/duck-rack.js:151-172 | every match is checked before anything is written; then, for hooks that do not change `entry` in place, each match is replaced by its merge and the merges are returned; non-matches stay untouched |
| Rack.UpdateAllOrNothing | src/lib/duck-rack.js:152-162 | one failing match means nothing is written, however many others pass |
| Rack.FirstWithId | src/lib/duck-rack.js:190-197 | finds the first entry whose `_id` is `===` the id, or reports that none is |
| Rack.DeleteById | src/lib/duck-rack.js:188-208 | a truthy `storeKey[_id]` goes, the first entry with that id leaves `store`, and nothing else changes; an unknown id is a no-op |
| Rack.CreateThenDeleteById | src/lib/duck-rack.js:113-208 | deleting a freshly created entry by its id gives back the store as it was |
| Rack.DeleteByIdKeeps | src/lib/duck-rack.js:188-208 | `deleteById` only takes entries away, and keeps every entry whose id is not the one deleted |
| Rack.DeleteByIdRemovesId | src/lib/duck-rack.js:188-208 | with unique ids, no entry with that id remains, ids stay unique, and every remaining entry was stored before |
| Rack.DeleteEach | src/lib/duck-rack.js:178-185 | the loop returns the entries it was given, keeps the rack's hooks and name, and never adds an entry to `store` |
| Rack.DeleteEachKeeps | src/lib/duck-rack.js:178-183 | whatever the hooks do, every stored entry and every `storeKey` slot not under the id of an entry given is kept |
| Rack.DeleteEachUnique | src/lib/duck-rack.js:178-183 | with unique ids, ids stay unique, and after a full run no stored entry has the id of an entry given |
| Rack.Delete | src/lib/duck-rack.js:174-186 | a successful `delete` returns the entries the raw query matches, in store order; no entry is ever added |
| Rack.DeleteEffect | src/lib/duck-rack.js:174-186 | with unique ids, every entry the query does not match is kept, and after a successful `delete` no stored entry matches |
| Rack.DeleteEachRemoves | src/lib/duck-rack.js:174-186 | without hooks, no removed entry's id remains in the store |
| Registry.RegisterRack | src/lib/duck-storage.js:3-9 | a taken name throws `a DuckRack with the name <n> is already registered`; otherwise the rack is added under its name |
| Registry.Lookup | src/lib/duck-storage.js:10-12 | `getRackByName` finds nothing exactly for a name never registered |
| Registry.RegisterThenGet | src/lib/duck-storage.js:3-12 | after registering, the name finds the new rack, every other name finds what it found before, names stay unique, and the name is listed last |
| Registry.Construct | src/lib/duck-rack.js:45-65 | `new DuckRack(name)` succeeds exactly for a non-empty free name, and the registry then finds the new empty rack under it |
| Registry.RemoveRack | dist/duck-storage.js:1383-1389 | an unknown name throws `a DuckRack with the name <n> could not be found`; otherwise the name is gone |
| Registry.RemoveThenGet | dist/duck-storage.js:1383-1397 | after removal the name finds nothing and every other name finds the same rack |
| Registry.RegisterThenRemove | dist/duck-storage.js:1369-1389 | registering a free name and removing it gives back the registry it started from |
| Registry.ListRacks | dist/duck-storage.js:1391-1393 | a name is listed exactly when `getRackByName` finds a rack under it |
| Uuid.Digit | src/lib/types/uuid.js:8-11 | an `x` takes its nibble; the `y` takes `(r & 3) \| 8`, which is 8 to 11 and keeps the low two bits |
| Uuid.Generate | src/lib/types/uuid.js:5-13 | the output matches `UUIDPattern`: 36 characters, dashes at 8, 13, 18 and 23, version `4` at 14, the variant digit at 19 in `89ab`, and each other position is its nibble in lowercase hex |
| Uuid.TemplateLayout | src/lib/types/uuid.js:7 | substituting into the template gives exactly the layout above |
| Uuid.GenerateNibbles | src/lib/types/uuid.js:3-13 | every string matching `UUIDPattern` with variant digit in `89ab` is generated by some nibbles |
| Uuid.NibblesGenerate | src/lib/types/uuid.js:7-12 | reading the nibbles back from a generated id gives the input, with the `y` nibble forced to `8 + r % 4` |
| ObjectId.IsValid | dist/duck-storage.js:234-240 | true exactly for strings of 24 hex characters in either case |
| ObjectId.HexOfByte | dist/duck-storage.js:334-337 | `hex(2, b)` is the two lowercase hex digits of a byte, zero-padded |
| ObjectId.BufferOfHex | dist/duck-storage.js:339-349 | `buffer` of a 24-hex string holds byte i = the value of character pair i |
| ObjectId.FromString | dist/duck-storage.js:176-181 | the string constructor accepts exactly 12-character and 24-hex strings, with `buffer(arg)` as its bytes |
| ObjectId.HexRoundTrip | dist/duck-storage.js:176-191 | for a valid 24-hex string the `str` getter gives back the lowercase form of the input |
| Paths.JoinSplit | dist/duck-storage.js:1509 | joining the pieces of `split('.')` with dots gives back the path |
| Paths.SplitJoin | dist/duck-storage.js:1509 | splitting dot-free pieces joined by dots gives back the pieces |
| Paths.PathToObjNests | dist/duck-storage.js:1508-1510 | `pathToObj("a.b.c", v)` is `{ a: { b: { c: v } } }`, one level per segment |
| Paths.PathToObjRoundTrip | dist/duck-storage.js:1508-1510 | looking the path up in `pathToObj(path, v)` gives back `v` |
| DistHooks.TriggerAsWritten | dist/duck-storage.js:758-775 | as written: runs the matched callbacks in order on the shared context; the first failure stops the run with an `ErrorHook` and leaves the context as the failing callback found it, rollback closures not called |
| DistHooks.Undo | dist/duck-storage.js:771 | calling every rollback closure frees each id it names and no other |
| DistHooks.Trigger | dist/duck-storage.js:758-775 | corrected: the same outcome, and on a failure every id on the rollback list is unlocked before the `ErrorHook` is thrown |
| DistHooks.TriggerAs | dist/duck-storage.js:758-775 | under either reading the outcome is the bundle's: a pass hands on the context `Hooks.Fire` returns on the same hooks, a failure is the `ErrorHook` it throws |
| DistHooks.LockBeforeUpdate | dist/duck-storage.js:115-121 | the lock hook as a callback, under either reading: it succeeds exactly when the lock step does, and carries its lock set and rollback list into the context |
| DistHooks.LockAfterUpdate | dist/duck-storage.js:122-124 | after:update as a callback: it unlocks `oldEntry._id` in the context |
| DistHooks.LockThenRejectRun | dist/duck-storage.js:766-773 | a lock hook followed by a rejecting hook stops at the second, on the context the lock hook left |
| DistHooks.RollbackAsWrittenKeepsLock | dist/duck-storage.js:771 | when the lock hook locks (as written, for a state such as `{ lock: { skip: false } }`) and the next hook throws, the id stays locked as written, so the next lock on it times out; corrected, the lock set is the one the trigger started from |
| DistHooks.WithResult | dist/duck-storage.js:1124-1126 | the payload a hook sees carries the `result` array and every other key unchanged |
| DistHooks.StoreBeforeUpdateStores | src/lib/plugins/in-memory-db.js:55-58 | the store hook as a callback stores the entry under its id and pushes exactly that entry, leaving locks alone |
| DistRack.AssignProp | dist/duck-storage.js:1113 | `Object.assign(target, { key: v })`: nil throws; an object gets the key; other values stay as they are |
| DistRack.SetProp | dist/duck-storage.js:1123 | a strict-mode property write: an object gets the key and keeps the others; an array is unchanged; other values throw |
| DistRack.SameId | dist/duck-storage.js:1099 | `objectid(oldId).equals(newId)`: for a 24-hex old id it is true exactly when the new id is truthy and its text is the lowercased old id; a string of any other length except 12 throws |
| DistRack.CheckMatch | dist/duck-storage.js:1098-1108 | a falsy patch passes; with a truthy patch `_id`, a different id fails with `_id's cannot be modified` and an equal one goes on to the version check; that check fails with `Entry version mismatch` exactly when a truthy patch `_v` is not `===` the match's `_v`; a nil match throws |
| DistRack.CheckAll | dist/duck-storage.js:1098-1108 | passes exactly when every match passes; otherwise it reports the failure of the first failing match in `find` order |
| DistRack.Compose | dist/duck-storage.js:1114 | the deep copy of the old entry overwritten by the patch; a nil old entry throws |
| DistRack.Payload | dist/duck-storage.js:1126 | the hook payload carries `oldEntry`, `newEntry`, `entry` and `state` as given |
| DistRack.ModifiedAsWrittenMeaning | dist/duck-storage.js:791-804 | as written, the diff counts as unmodified exactly when every changed value is keyless (a number, a boolean, an empty string, array or object), and as modified exactly when a keyed value comes after only keyless ones |
| DistRack.ModifiedAsWrittenMissesScalars | dist/duck-storage.js:791-804 | the diff of `{ age: 30 }` and `{ age: 31 }` counts as no modification |
| DistRack.ModifiedAsWrittenThrowsOnDelete | dist/duck-storage.js:791-804 | the diff of a deleted property throws `Cannot convert undefined or null to object` |
| DistRack.Prepare | dist/duck-storage.js:1113-1123 | the state gets `oldEntry` and keeps its other keys; the match is unchanged exactly when the parsed merge counts as unmodified under the reading, which as corrected means it equals the old entry; otherwise patch and entry get `_v` = old `_v` + 1 and the payload carries `oldEntry`, `newEntry` and `state` |
| DistRack.ScalarChangeIgnoredAsWritten | dist/duck-storage.js:1113-1121 | as written, an update that only changes a number is collected as unchanged and runs no hook; as corrected it is a change |
| DistRack.UpdateOne | dist/duck-storage.js:1112-1132 | an unchanged match is collected as it was with no hook run; a changed one runs before:update and then after:update, each with a fresh rollback list; a hook failure ends the update with its `ErrorHook`, and otherwise exactly what the hooks pushed onto `result` is appended |
| DistRack.UpdateOneNoHooks | dist/duck-storage.js:1123-1132 | without update hooks a changed match collects nothing and leaves the plugins' state alone |
| DistRack.UpdateEach | dist/duck-storage.js:1112-1133 | the loop only ever appends to what it has collected |
| DistRack.UpdateEachAppend | dist/duck-storage.js:1112-1133 | the loop over `a + b` is the loop over `a`, then, unless that threw, the loop over `b` from where it stood |
| DistRack.ParseAll | dist/duck-storage.js:1135 | the final parse succeeds exactly when every entry parses, and keeps order |
| DistRack.InitState | dist/duck-storage.js:1093-1096 | a missing state becomes `{ method: 'update' }`; `null` throws |
| DistRack.FindState | dist/duck-storage.js:1266-1269 | `find` sets `method` to `'find'` on the state and keeps every other key; a nil state throws |
| DistRack.Update | dist/duck-storage.js:1093-1136 | a `null` state or a failing check throws before any update hook runs, leaving the plugins' state unchanged; otherwise the loop runs on the state `find` left, its failure is rethrown, and its success returns the parse of every collected entry |
| DistRack.UpdateHooksSeeFind | dist/duck-storage.js:1093-1126 | the update hooks see `method: 'find'` in the state, and `oldEntry` set to the match |
| DistRack.UpdateNoChange | dist/duck-storage.js:1118-1121 | when no match changes, `update` returns the parsed old entries, runs no hook and changes nothing |
| DistRack.UpdateOneStores | dist/duck-storage.js:1123-1132 | with the store hook, a changed match is stored under its id with `_v` bumped, and that entry is what is collected |

## Left out

- Lock waiting and time-outs: the event wake-up, `setTimeout` and `Date.now`. A held lock fails at once with the time-out error.
- `sift` matching, the schema engine's `parse`, `Utils.obj2dot` and `getModel`: these are parameters. The one query shape the unique-key enforcer builds is given a small evaluator, only to state what the query means.
- deep-object-diff's `detailedDiff`: a parameter. What it produces for dates, arrays and prototype keys is not modelled.
- deep-object-diff's `diff`: a parameter. Only its rule for equal sides and for a non-object side (`UniqueKeys.DiffRule`) is assumed; what it gives for two objects or arrays is not modelled.
- Rack.Update: a change a before:update hook makes in place to the payload's `entry` object, which `Object.assign(oldEntry, entry)` then writes (src/lib/duck-rack.js:166-168), is not written back; the model writes the merge as built. Hook return values are ignored, as in the source.
- DistRack.Update: the matches of `this.find(query, state, true)` are an input, and the before:find and after:find hooks that call fires (dist/duck-storage.js:1283-1284) are not modelled, so "before any update hook" does not cover them.
- `ObjectID` generation from the clock, machine id and counter: the generated id is a parameter.
- DistRack.SameId: a 12-element array id is treated like the other non-string cases, not copied byte by byte, because byte arrays are not among the modelled values.
- DistRack.SetProp: named properties on arrays are not kept, because arrays are modelled by their elements only.
- Keys that clash with `Object.prototype` names, and the numeric ordering `Object.keys` gives integer-like keys: all keys are kept in insertion order.
- Registry: non-string rack names are not modelled.
- Errors raised through the schema's `throwError` are plain errors with the same message.
- `registerRack` in the bundle also installs every plugin and wires the rack's events (dist/duck-storage.js:1376-1379). Plugin installation is left to the caller, and events are not modelled.
- Events, `emit`, the rack's method Proxy and `apply` are not modelled; they are event plumbing and dynamic interception.
- src `read` and `findOneById` on the rack run a parsed query through `sift` only. Their store-side hook is modelled as `InMemoryDb.BeforeFindOneById`.
- Partial changes a callback makes before it throws are not modelled.
- The bundle's own unique-keys variant (dist/duck-storage.js:401-445) and the reference loader depend on schema lookups and other racks.
- DistRack.UpdateEach: changes a hook makes to the `state` and `newEntry` objects are not carried into later iterations of the loop. Only the plugins' state, the patch's `_v` and the state's `oldEntry` are.
- The src `trigger` never passes a rollback list, so the lock hooks' rollback parameter only has meaning in the bundle: under src, their `rollback.push(...)` throws a TypeError, which `trigger` rethrows as an `ErrorHook`. The lock plugin's use of the rollback list is modelled with the dist `trigger` in `DistHooks`.
- JsValues.Value: numbers are integers plus `NaN`. Fractions, `Infinity`, `-0` and the loss of precision above 2^53 (which `_v + 1` would show) are not modelled, so fractional sort keys are out of reach.
- JsValues.StrToNumber: accepts digits only. A sign, surrounding whitespace, a fraction or an exponent gives `NaN`, where JavaScript's `Number(s)` would not.
- JsValues.StrLess: compares code points, while JavaScript's `<` compares UTF-16 code units. The two agree on characters below U+10000.
- JsValues.StrictEquals: objects and arrays are equal when their contents are, not only when they are the same object, because values carry no identity.
- DistRack.UpdateOne: the rack's `emit('update', ...)` between the two triggers is not modelled. after:update gets the payload as before:update left it, while the bundle builds a fresh payload object with the same members, so only a hook that replaces a top-level payload key would tell the two apart.
- Password hashing, the IPC client, directory registration and logging are outside the core.

## Findings

| source | as written | input that shows it | evidently intended | confidence | as-written member | corrected member |
|---|---|---|---|---|---|---|
| src/lib/plugins/lock.js:10-16 | `skipLock` maps an object whose `lock.skip` is nil to `R.T`, so `doLock` is false and nothing is locked | state `{}`, or the state `{ method: 'find', oldEntry }` the dist `update` passes to its update hooks | lock unless `lock.skip` is truthy; only `apply` sets it | medium, not executed | Lock.DoLockAsWritten, Lock.DoLockAsWrittenSkipsEmptyState | Lock.DoLock |
| src/lib/plugins/unique-keys.js:31-37 | `get(failingEntry, props)` reads the key's path array as one nested path | keys `email: [email]` and `fullName: [first, last]`; found and new entries share `email` but differ in `last`: both keys are reported | report the keys whose paths all read the same in both entries | high, not executed | UniqueKeys.FailingKeysAsWritten, UniqueKeys.FailingKeysAsWrittenCounterexample, UniqueKeys.CheckPrimaryKeys | UniqueKeys.FailingKeys, UniqueKeys.FailingKeysMeaning, UniqueKeys.CheckPrimaryKeysReportsCollision |
| src/lib/types/sort.js:24 | `parse` calls `Sort.isOperator`, which `Sort` does not define | any value, e.g. `{ $sort: { name: 1 } }`: TypeError | call `Sort.isSort` | high, not executed | QueryTypes.SortParseAsWritten, QueryTypes.SortParseAsWrittenRejectsSort | QueryTypes.SortParse |
| dist/duck-storage.js:771 | on a failure the rollback closures are passed to `Promise.all`, which never calls them | state `{ lock: { skip: false } }` (locked as written, Lock.DoLockSkipFalse), a lock before:update hook followed by a rejecting before:update hook: the id stays locked, and the next update of that entry times out | call every rollback closure before rethrowing | high, not executed | DistHooks.TriggerAsWritten, DistHooks.RollbackAsWrittenKeepsLock | DistHooks.Trigger, DistHooks.TriggerAs |
| dist/duck-storage.js:791-804 | `objectHasBeenModified` sets `modified` to whether the first changed value it meets has any `Object.keys` | `{ age: 30 }` updated to `{ age: 31 }`: the diff's changed value is `31`, which has no keys, so the update is taken for no change and no hook runs; a deleted property gives `Object.keys(undefined)`, which throws | report a change whenever the parsed entry differs from the old one | medium, not executed | DistRack.ModifiedAsWritten, DistRack.ModifiedAsWrittenMissesScalars, DistRack.ModifiedAsWrittenThrowsOnDelete, DistRack.ScalarChangeIgnoredAsWritten | DistRack.Prepare, DistRack.ScalarChangeIgnoredAsWritten |
| src/lib/plugins/unique-keys.js:35 | a key fails when `Object.keys(diff(a, b)).length === 0`, and `diff` of two non-objects that are not `===` returns the right-hand side | keys `code` and `email`; found `{ code: 1, email: 'x' }`, entry `{ code: 2, email: 'x' }`: both keys are reported; an entry without `email`: `Object.keys(undefined)` throws a TypeError | report the keys whose values agree | medium, not executed | UniqueKeys.FailingKeysAsWritten, UniqueKeys.ScalarKeyReportedAsWritten, UniqueKeys.MissingKeyThrowsAsWritten | UniqueKeys.FailingKeys, UniqueKeys.FailingKeysMeaning, UniqueKeys.ScalarKeyReportedAsWritten, UniqueKeys.MissingKeyThrowsAsWritten |
