/** The in-memory storage behind a blockfile: a builder that stages entries,
    the immutable storage a commit turns it into, and the manager that maps
    instance ids to one or the other. */
module MemoryStorage {
  import opened Keys

  datatype Option<T> = None | Some(value: T)

  /** The logical storage key: a key always travels with its prefix. */
  datatype CompositeKey = CompositeKey(prefix: string, key: KeyWrapper)

  /** The one-sided range comparisons a reader offers. */
  datatype Comparison = Gt | Gte | Lt | Lte

  /** Whether `key` lies on the requested side of `bound`. */
  predicate Satisfies(key: KeyWrapper, op: Comparison, bound: KeyWrapper)
  {
    match op
    case Gt => Less(bound, key)
    case Gte => Less(bound, key) || key == bound
    case Lt => Less(key, bound)
    case Lte => Less(key, bound) || key == bound
  }

  /** A committed, read-only instance. */
  datatype Storage<V> = Storage(id: nat, entries: map<CompositeKey, V>)
  {
    /** Every composite key stored under `prefix`. */
    function PrefixKeys(prefix: string): set<CompositeKey>
    {
      set ck | ck in entries && ck.prefix == prefix
    }

    /** Every composite key under `prefix` whose key satisfies `op` against `bound`. */
    function RangeKeys(prefix: string, op: Comparison, bound: KeyWrapper): set<CompositeKey>
    {
      set ck | ck in entries && ck.prefix == prefix && Satisfies(ck.key, op, bound)
    }
  }

  /** The mutable staging area of one instance that is still being built. */
  class StorageBuilder<V> {
    const id: nat
    var entries: map<CompositeKey, V>

    constructor (id: nat)
      ensures this.id == id && entries == map[]
    {
      this.id := id;
      entries := map[];
    }

    /** Stages the entry `(prefix, key) -> value`. For a composite key that
        is already staged, which of the two values is kept is left open. */
    method Write(prefix: string, key: KeyWrapper, value: V)
      modifies this
      ensures entries.Keys == old(entries).Keys + {CompositeKey(prefix, key)}
      ensures CompositeKey(prefix, key) !in old(entries) ==>
                entries[CompositeKey(prefix, key)] == value
      ensures CompositeKey(prefix, key) in old(entries) ==>
                entries[CompositeKey(prefix, key)] in {value, old(entries)[CompositeKey(prefix, key)]}
      ensures forall ck | ck in old(entries) && ck != CompositeKey(prefix, key) ::
                entries[ck] == old(entries)[ck]
    {
      entries := entries[CompositeKey(prefix, key) := value];
    }
  }

  /** What the manager holds for one instance id. */
  datatype Slot<V> = Building(builder: StorageBuilder<V>) | Committed(storage: Storage<V>)
  {
    function Id(): nat
    {
      match this
      case Building(b) => b.id
      case Committed(s) => s.id
    }
  }

  /** The registry from instance ids to builders and committed storages. */
  class StorageManager<V> {
    var registry: map<nat, Slot<V>>
    /** The next id `Create` hands out; it stands for a freshly generated UUID. */
    var nextId: nat

    /** Every registered slot is filed under its own id, and every id in use
        lies below the next fresh one. */
    ghost predicate Valid()
      reads this
    {
      forall id | id in registry :: id < nextId && registry[id].Id() == id
    }

    constructor ()
      ensures Valid() && registry == map[]
    {
      registry := map[];
      nextId := 0;
    }

    /** Registers an empty builder under an id not used before. */
    method Create() returns (b: StorageBuilder<V>)
      requires Valid()
      modifies this
      ensures Valid() && fresh(b)
      ensures b.id !in old(registry) && b.entries == map[]
      ensures registry == old(registry)[b.id := Building(b)]
    {
      b := new StorageBuilder(nextId);
      registry := registry[nextId := Building(b)];
      nextId := nextId + 1;
    }

    /** Freezes the builder under `id` into an immutable storage with the
        same id and entries; an id without a builder is left as it is. */
    method Commit(id: nat)
      requires Valid()
      modifies this
      ensures Valid()
      ensures id in old(registry) && old(registry)[id].Building? ==>
                registry == old(registry)[id := Committed(Storage(id, old(registry)[id].builder.entries))]
      ensures !(id in old(registry) && old(registry)[id].Building?) ==> registry == old(registry)
    {
      if id in registry && registry[id].Building? {
        registry := registry[id := Committed(Storage(id, registry[id].builder.entries))];
      }
    }

    /** The committed storage under `id`; a builder's contents are never returned. */
    function Get(id: nat): (r: Option<Storage<V>>)
      reads this
      requires Valid()
      ensures r.Some? <==> id in registry && registry[id].Committed?
      ensures r.Some? ==> r.value == registry[id].storage && r.value.id == id
    {
      if id in registry && registry[id].Committed? then Some(registry[id].storage) else None
    }
  }
}
