# KeyValueStore in Dafny

A model of `KeyValueStore<T>`, a transactional in-memory key-value store. It
has two layers:

- **Record map.** Maps string keys to values of a single value type `T`.
  `Get` is a point lookup that may find nothing. `Set` inserts or overwrites
  a key. `Del` removes a key, and does nothing if the key is absent.
  `Keys(filter)`, `Values()` and `Count(filter)` enumerate and count the
  records; an absent filter matches every value. A record counter
  (`num_records_`) is kept equal to the number of keys.
- **Undo log.** Before `Set` or `Del` touches the map, it pushes a reversal
  entry onto the log. The entry records what the key held before: its value,
  or the fact that it was absent. `Begin` pushes a checkpoint marker.
  `Rollback` pops entries and puts each recorded key back, and stops after
  it pops a marker or when the log is empty. `Commit` discards the whole
  log, which closes every open transaction at once.

The repository's method bodies (src/kvs/key_value_store.h:51-94) all throw
`std::logic_error("... not implemented.")`. The model therefore takes its
behaviour from the interface's documentation (include/store/in_memory_store.h)
and from the assertions of the test suite (tests/test_key_value_store.cc).

Files:

- `in_memory_store.dfy`, module `InMemoryStore`: the record-map contract.
  It defines `Option`, `Lookup`, the value filter `Matches` and the filtered
  key set `KeysMatching`, together with lemmas on how writes move keys
  between filters.
- `key_value_store.dfy`, module `KeyValueStore`: log entries, `Restore`,
  the nesting depth, `Undo` (the specification of `Rollback`) and the log
  invariant `Restores`. It also holds the class `KeyValueStore<T>`. The
  class fields are `data` (the record map), `numRecords` (`num_records_`)
  and `log`. Two ghost fields give the transactional view: `snapshots` is
  the map at each open `Begin`, outermost first, and `committed` is the map
  when the log was last emptied.
  `Valid()` says two things. The counter equals the number of keys. And
  undoing the log from the top reaches each snapshot at its checkpoint and
  `committed` at the bottom. Every mutator keeps `Valid()`. `Rollback`
  promises to restore the innermost snapshot, or `committed` when no
  transaction is open.
- `store_tests.dfy`, module `KeyValueStoreTests`: each test case as a
  method. The method drives a fresh store through the test's calls and
  returns what the test inspects. Its `ensures` clause is the test's
  expectation, proved from the store's contracts alone.

Design decisions on what the sources leave open:

- `Rollback` with no checkpoint in the log pops and re-applies every
  remaining entry, then stops on the empty log. So it brings back the map as
  of the last `Commit` (or the empty map). The test at
  tests/test_key_value_store.cc:102 only requires that this call succeeds.
  `KeyValueStoreTests.RollbackRestores` states the resulting value.
- `Set` and `Del` record a reversal entry every time, even when the key is
  absent or already holds the value. `Set` skips the map write when the key
  already holds the value, as include/store/in_memory_store.h:58-59 allows.
  The result is the same map either way.
- An absent filter matches every value. The model does not compare each
  value with itself.

## Model

| member | source | states |
|---|---|---|
| InMemoryStore.Lookup | include/store/in_memory_store.h:46-51 | the optional result of a lookup: present exactly when the key is in the map, and then the stored value |
| InMemoryStore.Matches | include/store/in_memory_store.h:95-102 | an absent filter matches every value; a present filter matches exactly the values equal to it |
| InMemoryStore.KeysMatching | include/store/in_memory_store.h:71-79 | the filtered key set lies within the record map's keys, and with no filter it is every key |
| InMemoryStore.CountAllIsSize | include/store/in_memory_store.h:95-102 | with no filter, the number of matching keys is the total number of records |
| InMemoryStore.RemoveSize | include/store/in_memory_store.h:63-69 | deleting a present key removes exactly one record; deleting an absent key removes none |
| InMemoryStore.KeysMatchingAfterAssign | include/store/in_memory_store.h:53-61 | after a write, the written key is in a filter's key set exactly when its new value passes the filter; every other key's membership is unchanged |
| InMemoryStore.KeysMatchingAfterRemove | include/store/in_memory_store.h:63-69 | after a delete, each filter's key set loses the deleted key and nothing else |
| InMemoryStore.KeysMatchingByValue | include/store/in_memory_store.h:95-102 | different filter values select disjoint key sets, and every key is selected by its own value |
| InMemoryStore.AmongAdd | include/store/in_memory_store.h:95-102 | scanning one more key adds one to the count exactly when that key is a record whose value passes the filter |
| InMemoryStore.AmongAll | include/store/in_memory_store.h:71-79 | a scan over every key finds exactly the filtered key set |
| KeyValueStore.Restore | src/kvs/key_value_store.h:46 | re-applying a reversal entry leaves the key reading as the recorded prior value (or absent) and every other key as it was |
| KeyValueStore.Depth | src/kvs/key_value_store.h:44-46 | the nesting depth counts checkpoint markers, so it is at most the number of log entries |
| KeyValueStore.UndoStopsAtCheckpoint | src/kvs/key_value_store.h:46 | Rollback pops only reversal entries before it stops, and when the log holds a checkpoint the last entry it pops is the innermost checkpoint |
| KeyValueStore.Undo | src/kvs/key_value_store.h:46 | Rollback leaves a prefix of the log, consumes exactly one checkpoint when there is one, and otherwise empties the log |
| KeyValueStore.RestoresDepth | src/kvs/key_value_store.h:44-46 | under the log invariant, the number of open snapshots equals the number of checkpoint markers in the log |
| KeyValueStore.UndoRestoresSnapshot | src/kvs/key_value_store.h:44-46 | Rollback brings back the map as of the innermost open Begin and keeps the invariant for the outer ones; with none open it brings back the committed map and empties the log |
| KeyValueStore.RecordKeepsRestores | src/kvs/key_value_store.h:33-34 | pushing a key's prior state before a write keeps every snapshot and the committed map reachable by undoing |
| KeyValueStore.BeginKeepsRestores | src/kvs/key_value_store.h:44 | pushing a checkpoint while the current map becomes the newest snapshot keeps the invariant |
| KeyValueStore.RestoreSize | include/store/in_memory_store.h:36-37 | re-applying a reversal changes the record count by one exactly when the key appears or disappears |
| KeyValueStore.RestoreUndoesAssign | include/store/in_memory_store.h:53-61 | re-applying the recorded prior state after an overwrite gives back the map from before the write |
| KeyValueStore.RestoreUndoesRemove | include/store/in_memory_store.h:63-69 | re-applying the recorded prior state after a delete gives back the map from before the delete |
| KeyValueStore.DistinctSize | include/store/in_memory_store.h:71-79 | a key list without repeats is as long as its set of keys |
| KeyValueStore.DistinctMultiset | include/store/in_memory_store.h:71-79 | a key list without repeats holds each key of its set exactly once |
| KeyValueStore.KeyValueStore.constructor | include/store/in_memory_store.h:40-41 | a new store has no records, a zero record counter, an empty log and no open transaction |
| KeyValueStore.KeyValueStore.Get | include/store/in_memory_store.h:46-51 | returns a value exactly when the key is present, and then the stored one |
| KeyValueStore.KeyValueStore.Set | include/store/in_memory_store.h:53-61 | records the prior state; the new value reads back at once; no other key changes; the counter grows only for a new key; writing the value already held leaves the map unchanged; the invariant is kept |
| KeyValueStore.KeyValueStore.Del | include/store/in_memory_store.h:63-69 | records the prior state; the key then reads as absent; no other key changes; the counter shrinks only when the key was present; on an absent key the map is unchanged |
| KeyValueStore.KeyValueStore.Keys | include/store/in_memory_store.h:71-79 | returns exactly the keys whose value passes the filter, each once: no repeats, and its length and multiset match the filtered key set |
| KeyValueStore.KeyValueStore.Values | include/store/in_memory_store.h:81-85 | one value per record, and each value occurs as many times as there are keys holding it |
| KeyValueStore.KeyValueStore.Count | include/store/in_memory_store.h:95-102 | the number of keys passing the filter, which is the length of Keys for the same filter; with no filter, the total number of records |
| KeyValueStore.KeyValueStore.Begin | src/kvs/key_value_store.h:44 | pushes a checkpoint and snapshots the current map; the map and counter do not change |
| KeyValueStore.KeyValueStore.Commit | src/kvs/key_value_store.h:45 | empties the log and closes every open transaction at once; the map stays as it is and becomes what a later Rollback returns to |
| KeyValueStore.KeyValueStore.Rollback | src/kvs/key_value_store.h:46 | its effect equals Undo of the prior map and log; with a transaction open, the map equals the innermost snapshot and that transaction is closed; with none open, the map equals the committed one and the log is empty |
| KeyValueStoreTests.GetAndSet | tests/test_key_value_store.cc:16-21 | a missing key reads as absent; after one Set there is one record holding "23" |
| KeyValueStoreTests.Overwrite | tests/test_key_value_store.cc:24-29 | a second Set on the same key keeps one record and reads "24" |
| KeyValueStoreTests.Delete | tests/test_key_value_store.cc:32-40 | a deleted key reads as absent and can be set again |
| KeyValueStoreTests.DeleteIdempotent | tests/test_key_value_store.cc:43-55 | repeated Del, on an absent key or after a Set, leaves zero records and the key absent |
| KeyValueStoreTests.KeysWithSpecificValue | tests/test_key_value_store.cc:57-65 | Keys("25") is exactly "Justin" and "Justine", in any order |
| KeyValueStoreTests.KeysDefault | tests/test_key_value_store.cc:67-75 | Keys() is exactly the three keys, in any order |
| KeyValueStoreTests.Digit | tests/test_key_value_store.cc:81 | the character for a decimal digit lies between '0' and '9' |
| KeyValueStoreTests.Decimal | tests/test_key_value_store.cc:81 | the decimal spelling of a number as `std::to_string` gives it: its contract states only that it is one or more digit characters, with two or more exactly from 10 upwards |
| KeyValueStoreTests.DecimalInjective | tests/test_key_value_store.cc:80-81 | distinct numbers have distinct decimal spellings, so the Count test writes distinct keys |
| KeyValueStoreTests.CountAfterOverwrite | tests/test_key_value_store.cc:77-90 | n Sets on distinct keys give n records; overwriting them all still gives n |
| KeyValueStoreTests.RollbackRestores | tests/test_key_value_store.cc:93-103 | a write inside a transaction reads back at once; Rollback restores "25"; the trailing Rollback drains the top-level write |
| KeyValueStoreTests.CommitIsPermanent | tests/test_key_value_store.cc:106-114 | a committed write survives a later Rollback |
| KeyValueStoreTests.NestedTransactions | tests/test_key_value_store.cc:117-149 | each Rollback undoes one nesting level: the inner insert vanishes first, then the outer delete is undone |
| KeyValueStoreTests.CommitCollapsesNesting | tests/test_key_value_store.cc:135-148 | a Rollback inside three levels undoes only the innermost; the Commit then keeps "21" and leaves "Justin" absent |
| KeyValueStoreTests.IntegerValues | tests/test_key_value_store.cc:151-168 | a rolled-back transaction of inserts leaves both keys absent; later Set/Set/Del behave normally |

Two ghost predicates carry the invariants and so have no row of their own.
`KeyValueStore.Restores` is the log invariant that Begin, Set, Del and
Rollback maintain (src/kvs/key_value_store.h:44-46).
`KeyValueStore.KeyValueStore.Valid` combines it with the requirement that
`num_records_` equals the number of keys (include/store/in_memory_store.h:36-37).
Every method of the class requires `Valid()`, and every mutator ensures it.

## Left out

- `Show` (include/store/in_memory_store.h:87-93, src/kvs/key_value_store.h:87-89) prints the store to standard output. It is diagnostic I/O with no functional contract.
- src/driver.cc only calls the store and prints with `Show`, so it is not part of this model.
- The `FloatTest` case (tests/test_key_value_store.cc:170-187) instantiates the store with floating-point values. The model is generic over any value type with equality, and floating point is not modelled.
- KeyValueStore.KeyValueStore.Count: returns an unbounded `nat`. The source returns a 32-bit `uint32_t`, and `num_records_` is 32 bits too, so both would wrap past 2^32 - 1 records. The model does not capture that wrap-around.
- The enumeration order of `Keys` and `Values` is unspecified in the source. The model states their results as sets and multisets, and picks keys in an arbitrary order.
- C++ specifics are not modelled: `std::string_view` versus `std::string`, heap allocation in the test fixture, virtual dispatch and template instantiation. The abstract interface and its single implementation are one class.
- The "not implemented" exceptions thrown by the unfinished method bodies are not modelled. They mark missing code, not intended behaviour.
