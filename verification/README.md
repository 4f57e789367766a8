# In-memory blockfile: a Dafny model

This project models the in-memory blockfile of the Chroma worker
(`rust/worker/src/blockstore/memory/reader_writer.rs`). A blockfile is a
prefix-scoped, ordered key/value store. It is used in two phases:

- **Writing.** `MemoryBlockfileWriter` asks the `StorageManager` for a fresh
  `StorageBuilder`. It stages `(prefix, key) -> value` entries into that
  builder with `set`. `commit` then has the manager replace the builder with
  an immutable `Storage` under the same id.
- **Reading.** `HashMapBlockfileReader` is opened on a committed id. It answers:
  - exact lookup (`get`);
  - prefix enumeration (`get_by_prefix`);
  - the four one-sided range queries (`get_gt`, `get_gte`, `get_lt`, `get_lte`).

  Each of these returns `NotFoundError` when nothing matches.

Modules:

- `keys.dfy` (`Keys`): the key wrapper `KeyWrapper = Str | Bool | U32`.
  - `u32` is a newtype bounded to 32 bits.
  - `Less` is the order: lexicographic for text, false before true, numeric
    for integers.
  - Wrappers of different key types do not compare.
  - Lemmas prove the order is a strict total order within each key type.
- `storage.dfy` (`MemoryStorage`): the storage layer the reader and writer
  call.
  - `StorageBuilder` is a class whose `entries` map is updated in place.
  - `Storage` is an immutable value.
  - `StorageManager` is a class holding the registry map from id to
    `Building(builder)` or `Committed(storage)`, plus a counter that hands
    out fresh ids.
  - `Storage.PrefixKeys` and `Storage.RangeKeys` are the matching sets that
    the reads select.
- `reader_writer.dfy` (`ReaderWriter`):
  - The writer is a class whose `builder` is the same object the manager
    registered. Writes through the writer are therefore writes to the
    manager's builder.
  - The reader is a value over one committed `Storage`.
  - `Get` is a function.
  - The enumerating queries are methods. They check for an empty match, then
    collect the matching entries into a sequence through a loop (`Collect`)
    that picks them in no particular order.
  - Each query's contract states:
    - that it fails exactly when the matching set is empty;
    - that on success it lists every matching entry exactly once, with its
      stored value, and nothing else.
- `properties.dfy` (`Properties`):
  - Lemmas relating the range selections: the partitions, monotonicity in
    the bound, and the behaviour at and beyond the smallest and largest keys.
  - Client methods that replay the source's unit tests (round trips, prefix
    scan, range boundaries on keys 1, 2, 3) against the contracts alone.

The reader's static key type `K` is represented by a `KeyKind` field. A range
bound must be of that kind, as Rust's typing guarantees. Every key a query
returns is proved to be of that kind. So converting it back to `K` (the
`K::from(&key.key)` step) is the identity on the wrapper.

Opening a reader on an id that is not committed is fatal in the source: it
unwraps the manager's lookup. The model follows the code and makes "the id
is committed" a precondition of `Open`, rather than a `NotFoundError` result.

## Model

| member | source | states |
|---|---|---|
| `Keys.KeyTrichotomy` | rust/worker/src/blockstore/memory/reader_writer.rs:90-156 | two keys of one key type are ordered one way, are equal, or are ordered the other way, and exactly one holds; the range queries rely on this order |
| `Keys.KeyTransitive` | rust/worker/src/blockstore/memory/reader_writer.rs:90-156 | the key order the range queries compare with is transitive |
| `MemoryStorage.StorageBuilder.constructor` | rust/worker/src/blockstore/memory/reader_writer.rs:16-17 | a new builder has the given id and no entries |
| `MemoryStorage.StorageBuilder.Write` | rust/worker/src/blockstore/memory/reader_writer.rs:37 | writing adds the composite key `(prefix, key)`; a new key holds the written value; no other entry changes; for an already staged key, either value may be kept |
| `MemoryStorage.StorageManager.constructor` | rust/worker/src/blockstore/memory/reader_writer.rs:172 | a new manager has no instances |
| `MemoryStorage.StorageManager.Create` | rust/worker/src/blockstore/memory/reader_writer.rs:16-17 | registers a fresh empty builder under an id never used before and changes no other instance |
| `MemoryStorage.StorageManager.Commit` | rust/worker/src/blockstore/memory/reader_writer.rs:26 | replaces the builder under the id with an immutable storage that has the same id and the builder's entries; other ids are untouched |
| `MemoryStorage.StorageManager.Get` | rust/worker/src/blockstore/memory/reader_writer.rs:59 | returns a storage exactly when the id is committed, and that storage carries the requested id; a builder's contents are never returned |
| `ReaderWriter.Collect` | rust/worker/src/blockstore/memory/reader_writer.rs:83-86 | the collected sequence lists each matching entry exactly once, with its stored value, and has as many elements as there are matches |
| `ReaderWriter.MemoryBlockfileWriter.constructor` | rust/worker/src/blockstore/memory/reader_writer.rs:15-23 | the writer holds the fresh, empty builder the manager just registered, and its id is that builder's id |
| `ReaderWriter.MemoryBlockfileWriter.Set` | rust/worker/src/blockstore/memory/reader_writer.rs:30-39 | returns `Ok(())` always and stages the entry in the writer's builder: a new composite key holds the written value, an already staged key holds either its old value or the new one, and no other entry changes |
| `ReaderWriter.MemoryBlockfileWriter.Commit` | rust/worker/src/blockstore/memory/reader_writer.rs:25-28 | returns `Ok(())` always; afterwards the manager holds a committed storage under the writer's id with the builder's entries; a second commit leaves it unchanged; other instances are untouched |
| `ReaderWriter.MemoryBlockfileWriter.Id` | rust/worker/src/blockstore/memory/reader_writer.rs:41-43 | the writer's id is the id of the builder created for it, and it is registered with the manager |
| `ReaderWriter.Open` | rust/worker/src/blockstore/memory/reader_writer.rs:57-64 | opening requires the id to be committed (the source unwraps); the reader sees that storage, and its `id()` is the opened id |
| `ReaderWriter.HashMapBlockfileReader.Id` | rust/worker/src/blockstore/memory/reader_writer.rs:158-160 | the reader's id is the id of the storage it reads; `Open` and `Properties.ReaderIdMatchesWriter` tie it to the id that was opened and to the writer's id |
| `ReaderWriter.HashMapBlockfileReader.Get` | rust/worker/src/blockstore/memory/reader_writer.rs:66-73 | `NotFoundError` exactly when no entry exists for `(prefix, key)`, and otherwise the stored value |
| `ReaderWriter.HashMapBlockfileReader.GetByPrefix` | rust/worker/src/blockstore/memory/reader_writer.rs:75-88 | `NotFoundError` exactly when no entry has the prefix; otherwise a non-empty list of every entry under the prefix, each once, with its value; every triple has the requested prefix |
| `ReaderWriter.HashMapBlockfileReader.ReadRange` | rust/worker/src/blockstore/memory/reader_writer.rs:96-104 | the shared emptiness check and collection: `NotFoundError` exactly when no entry under the prefix satisfies the comparison, otherwise a non-empty list of exactly those entries |
| `ReaderWriter.HashMapBlockfileReader.GetGt` | rust/worker/src/blockstore/memory/reader_writer.rs:90-105 | `NotFoundError` exactly when no key under the prefix is greater than the bound; otherwise exactly those entries, each once, with their values |
| `ReaderWriter.HashMapBlockfileReader.GetLt` | rust/worker/src/blockstore/memory/reader_writer.rs:107-122 | the same for keys less than the bound |
| `ReaderWriter.HashMapBlockfileReader.GetGte` | rust/worker/src/blockstore/memory/reader_writer.rs:124-139 | the same for keys greater than or equal to the bound |
| `ReaderWriter.HashMapBlockfileReader.GetLte` | rust/worker/src/blockstore/memory/reader_writer.rs:141-156 | the same for keys less than or equal to the bound |
| `Properties.EnumeratesContains` | rust/worker/src/blockstore/memory/reader_writer.rs:328-333 | a successful query result contains the triple `(prefix, key, stored value)` of every matching entry |
| `Properties.GtLtePartition` | rust/worker/src/blockstore/memory/reader_writer.rs:90-156 | under a prefix holding one key type, `get_gt` and `get_lte` with one bound select disjoint sets that together cover the prefix |
| `Properties.LtGtePartition` | rust/worker/src/blockstore/memory/reader_writer.rs:107-139 | likewise `get_lt` and `get_gte` |
| `Properties.RangeMonotone` | rust/worker/src/blockstore/memory/reader_writer.rs:90-156 | a larger bound selects no more for greater-than queries and no fewer for less-than queries; the strict selection is inside the inclusive one |
| `Properties.AtOrAboveMaximum` | rust/worker/src/blockstore/memory/reader_writer.rs:337-349 | a bound at or above every key (the maximum) leaves `get_gt` empty (hence `NotFoundError`) and `get_lte` returning the whole prefix |
| `Properties.AboveMaximum` | rust/worker/src/blockstore/memory/reader_writer.rs:456-470 | a bound above every key leaves `get_gte` empty and `get_lt` returning the whole prefix |
| `Properties.AtOrBelowMinimum` | rust/worker/src/blockstore/memory/reader_writer.rs:576-590 | a bound at or below every key (the minimum) leaves `get_lt` empty and `get_gte` returning the whole prefix |
| `Properties.BelowMinimum` | rust/worker/src/blockstore/memory/reader_writer.rs:696-710 | a bound below every key leaves `get_lte` empty and `get_gt` returning the whole prefix |
| `Properties.RoundTrip` | rust/worker/src/blockstore/memory/reader_writer.rs:170-181 | set, commit, open on the writer's id and get returns `Ok` of the written value, for string, bool and u32 keys alike |
| `Properties.UncommittedIsInvisible` | rust/worker/src/blockstore/memory/reader_writer.rs:57-59 | before commit the manager has no storage for the writer's id, so staged entries are never seen |
| `Properties.EnumerationsAgree` | rust/worker/src/blockstore/memory/reader_writer.rs:83-86 | two listings of the same matching entries hold the same triples with the same multiplicities: they can differ only in order |
| `Properties.WriteAllCommitRead` | rust/worker/src/blockstore/memory/reader_writer.rs:261-273 | on a writer that is still building, staging any number of entries under distinct, not yet staged composite keys and committing makes a reader opened on the writer's id hold exactly the previously staged keys plus the written ones, keep every previously staged value, and return `Ok` of each written value. That reader's id is the writer's id. Afterwards the writer is still valid, the manager returns the reader's storage under the writer's id, and every other instance is unchanged |
| `Properties.WriteAllScanPrefix` | rust/worker/src/blockstore/memory/reader_writer.rs:75-88 | for any sequence of writes under distinct composite keys whose writes under the scanned prefix use one key type, committed on a fresh manager, the scan of a prefix fails with `NotFoundError` exactly when no write used that prefix; otherwise it lists exactly the written triples under that prefix, each key once, whatever the order of the writes |
| `Properties.ScanListsWrites` | rust/worker/src/blockstore/memory/reader_writer.rs:83-86 | when a storage holds exactly the given writes, a listing of its entries under a prefix contains a triple exactly when that triple is one of the writes under the prefix |
| `Properties.ReaderIdMatchesWriter` | rust/worker/src/blockstore/memory/reader_writer.rs:177-178 | a reader opened on `writer.id` after the commit reports the writer's id |
| `Properties.RepeatedPrefixScansAgree` | rust/worker/src/blockstore/memory/reader_writer.rs:75-88 | the same prefix scan asked twice gives the same outcome and, on success, the same entries up to order |
| `Properties.RepeatedRangeQueriesAgree` | rust/worker/src/blockstore/memory/reader_writer.rs:90-156 | the same range query asked twice gives the same outcome and, on success, the same entries up to order |
| `Properties.CommitTwoPrefixes` | rust/worker/src/blockstore/memory/reader_writer.rs:316-322 | writing "key1" and "key2" under "prefix" and "key3" under "different_prefix", then committing, gives the reader exactly those three entries |
| `Properties.GetByPrefixScenario` | rust/worker/src/blockstore/memory/reader_writer.rs:316-334 | two keys under "prefix" and one under "different_prefix": the scan of "prefix" has length 2 and holds both of its entries |
| `Properties.CommitOneTwoThree` | rust/worker/src/blockstore/memory/reader_writer.rs:337-346 | writing keys 1, 2, 3 and committing gives exactly those three entries to the reader |
| `Properties.GetGtScenario` | rust/worker/src/blockstore/memory/reader_writer.rs:337-394 | on keys 1, 2, 3: `get_gt(0)` gives all three, `get_gt(1)` gives 2 and 3, `get_gt(3)` is `NotFoundError` |
| `Properties.GetGteScenario` | rust/worker/src/blockstore/memory/reader_writer.rs:456-514 | `get_gte(1)` gives all three, `get_gte(2)` gives 2 and 3, `get_gte(4)` is `NotFoundError` |
| `Properties.GetLtScenario` | rust/worker/src/blockstore/memory/reader_writer.rs:576-634 | `get_lt(4)` gives all three, `get_lt(3)` gives 1 and 2, `get_lt(1)` is `NotFoundError` |
| `Properties.GetLteScenario` | rust/worker/src/blockstore/memory/reader_writer.rs:696-754 | `get_lte(3)` gives all three, `get_lte(2)` gives 1 and 2, `get_lte(0)` is `NotFoundError` |

## Left out

- `rust/worker/src/blockstore/memory/storage.rs` and `rust/worker/src/blockstore/key.rs` are not part of this model. `StorageBuilder`, `Storage`, `StorageManager`, the `Readable`/`Writeable` value contracts and `KeyWrapper`'s order are modelled abstractly from how `reader_writer.rs` uses them.
- `MemoryStorage.StorageManager.Commit`: what the manager does with an id that holds no builder is defined in `storage.rs`, which this model does not include. The model leaves such an id unchanged, so a second commit is a no-op.
- The `Readable`/`Writeable` per-value-type partitions: one manager holds a single value type `V`. Values are abstract, and cloning one is the identity.
- `f32` keys and the float range tests are left out, because they need IEEE ordering. Some float tests use bounds that equal no stored key: a bound between two keys, or a bound below the minimum for the lower-bound queries. The query contracts and `Properties.AtOrBelowMinimum`, `Properties.BelowMinimum` and `Properties.AboveMaximum` hold for any bound of the key type, stored or not, so they cover such bounds for the integer and text keys.
- Concrete value types (`RoaringBitmap`, `DataRecord`, `LogRecord`, `Chunk`) and their encodings are foreign library types. The test at lines 202-274 is modelled by `Properties.WriteAllCommitRead` with an abstract value type: several entries are staged, committed and read back. The value's own fields are not modelled.
- UUID generation is replaced by a counter that never hands out the same id twice.
- Lifetimes, zero-copy borrows and `PhantomData` have no counterpart: values are returned as copies.
- Locking and sharing inside the cloneable `StorageManager` are not modelled. They serve concurrency, and the model is sequential.
- The order of query results is not modelled: the results are sequences in an unspecified order, as the source promises only membership.
- `MemoryStorage.StorageBuilder.Write`: says only that a repeated write to the same `(prefix, key)` keeps the old value or the new one, not which. The choice is made in `storage.rs`, which this model does not include, and `reader_writer.rs` does not define it.
- `ReaderWriter.MemoryBlockfileWriter.Set`: says only that a repeated write keeps the old value or the new one, for the same reason.
- `ReaderWriter.MemoryBlockfileWriter.Set` after `Commit`: what the manager does with such a write is defined in `storage.rs`, which this model does not include, and a committed writer is not meant to be written to. The model accepts the write: it stages the entry in the old builder, which no reader ever sees, so the committed storage does not change.
- `Properties.WriteAllCommitRead` requires the written composite keys to be distinct and not yet staged. With a repeated key, which value is read back is undefined.
- `ReaderWriter.HashMapBlockfileReader.GetByPrefix` requires every key under the prefix to be of the reader's key type. Converting a stored key back to `K` accepts no other variant.
- Keys of different types never compare as less than one another. The comparison across variants is defined in `key.rs`, which this model does not include; a reader's static key type never mixes them. One consequence: if a prefix does hold keys of several types, the range queries skip every key whose type differs from the bound's. For example, `GetLt("p", U32(10))` over the keys `Str("a")` and `U32(5)` returns only the `U32(5)` entry. `GetByPrefix` instead requires every key under the prefix to be of the reader's type.
- Reading from a shared `Storage` is modelled as reading one immutable value. So two identical `Get` calls return equal results by construction. The list-returning queries may list their entries in a different order on each call. `Properties.EnumerationsAgree` proves the two lists agree up to order, as multisets.
