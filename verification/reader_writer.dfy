/** The typed façade of the in-memory blockfile: a writer that stages entries
    into its builder and commits them, and a reader over a committed storage
    that answers exact, prefix and one-sided range queries. */
module ReaderWriter {
  import opened Keys
  import opened MemoryStorage

  datatype BlockfileError = NotFoundError

  datatype Result<T> = Ok(value: T) | Err(error: BlockfileError)

  /** One entry handed back by a query. */
  datatype Triple<V> = Triple(prefix: string, key: KeyWrapper, value: V)
  {
    function Key(): CompositeKey
    {
      CompositeKey(prefix, key)
    }
  }

  /** The composite keys of the entries in `out`. */
  ghost function KeysOf<V>(out: seq<Triple<V>>): set<CompositeKey>
  {
    set i | 0 <= i < |out| :: out[i].Key()
  }

  /** `out` lists each entry of `entries` whose key is in `matched` exactly
      once, with its stored value, and nothing else. */
  ghost predicate Enumerates<V>(out: seq<Triple<V>>, entries: map<CompositeKey, V>, matched: set<CompositeKey>)
  {
    && |out| == |matched|
    && KeysOf(out) == matched
    && (forall i, j | 0 <= i < j < |out| :: out[i].Key() != out[j].Key())
    && (forall i | 0 <= i < |out| :: out[i].Key() in entries && out[i].value == entries[out[i].Key()])
  }

  /** Every listed entry contributes its composite key to `KeysOf`. */
  lemma KeysOfContains<V>(out: seq<Triple<V>>)
    ensures forall i | 0 <= i < |out| :: out[i].Key() in KeysOf(out)
  {
  }

  /** Appending a triple adds exactly its composite key. */
  lemma KeysOfAppend<V>(out: seq<Triple<V>>, t: Triple<V>)
    ensures KeysOf(out + [t]) == KeysOf(out) + {t.Key()}
  {
    var out' := out + [t];
    assert forall i | 0 <= i < |out| :: out'[i] == out[i];
    assert out'[|out|] == t;
  }

  /** Listing one more entry, not listed before, keeps the listing exact. */
  lemma EnumeratesAppend<V>(out: seq<Triple<V>>, entries: map<CompositeKey, V>,
                            done: set<CompositeKey>, ck: CompositeKey)
    requires Enumerates(out, entries, done) && ck in entries && ck !in done
    ensures Enumerates(out + [Triple(ck.prefix, ck.key, entries[ck])], entries, done + {ck})
  {
    var t := Triple(ck.prefix, ck.key, entries[ck]);
    KeysOfContains(out);
    KeysOfAppend(out, t);
  }

  /** Turns the matching entries into triples, in no particular order. */
  method Collect<V>(entries: map<CompositeKey, V>, matched: set<CompositeKey>) returns (out: seq<Triple<V>>)
    requires matched <= entries.Keys
    ensures Enumerates(out, entries, matched)
  {
    out := [];
    var rest := matched;
    while rest != {}
      invariant rest <= matched
      invariant Enumerates(out, entries, matched - rest)
      decreases rest
    {
      var ck :| ck in rest;
      EnumeratesAppend(out, entries, matched - rest, ck);
      assert (matched - rest) + {ck} == matched - (rest - {ck});
      out := out + [Triple(ck.prefix, ck.key, entries[ck])];
      rest := rest - {ck};
    }
    assert matched - rest == matched;
  }

  /** The writer of one blockfile instance: a handle on the builder the
      manager created for it. */
  class MemoryBlockfileWriter<V> {
    const builder: StorageBuilder<V>
    const manager: StorageManager<V>
    const id: nat

    /** The manager files this writer's instance under its id, either still
        as this writer's builder or already committed. */
    ghost predicate Valid()
      reads this, manager
    {
      && manager.Valid()
      && builder.id == id
      && id in manager.registry
      && (manager.registry[id].Building? ==> manager.registry[id].builder == builder)
    }

    /** Whether the instance is still being built. */
    ghost predicate IsBuilding()
      reads this, manager
    {
      id in manager.registry && manager.registry[id].Building?
    }

    constructor (manager: StorageManager<V>)
      requires manager.Valid()
      modifies manager
      ensures Valid() && IsBuilding() && this.manager == manager
      ensures fresh(builder) && builder.entries == map[]
      ensures id !in old(manager.registry)
      ensures manager.registry == old(manager.registry)[id := Building(builder)]
    {
      var b := manager.Create();
      builder := b;
      this.manager := manager;
      id := b.id;
    }

    /** Stages `(prefix, key) -> value` in the builder; always succeeds. */
    method Set(prefix: string, key: KeyWrapper, value: V) returns (r: Result<()>)
      requires Valid()
      modifies builder
      ensures Valid() && r == Ok(())
      ensures builder.entries.Keys == old(builder.entries).Keys + {CompositeKey(prefix, key)}
      ensures CompositeKey(prefix, key) !in old(builder.entries) ==>
                builder.entries[CompositeKey(prefix, key)] == value
      ensures CompositeKey(prefix, key) in old(builder.entries) ==>
                builder.entries[CompositeKey(prefix, key)] in {value, old(builder.entries)[CompositeKey(prefix, key)]}
      ensures forall ck | ck in old(builder.entries) && ck != CompositeKey(prefix, key) ::
                builder.entries[ck] == old(builder.entries)[ck]
    {
      builder.Write(prefix, key, value);
      r := Ok(());
    }

    /** Hands the builder to the manager, which publishes its entries as an
        immutable storage under the same id; always succeeds. */
    method Commit() returns (r: Result<()>)
      requires Valid()
      modifies manager
      ensures Valid() && r == Ok(())
      ensures manager.Get(id) == Some(Storage(id, if old(IsBuilding()) then builder.entries else old(manager.registry)[id].storage.entries))
      ensures forall other | other in old(manager.registry) && other != id ::
                other in manager.registry && manager.registry[other] == old(manager.registry)[other]
      ensures manager.registry.Keys == old(manager.registry).Keys
    {
      manager.Commit(id);
      r := Ok(());
    }

    /** The id a reader opens to see what this writer committed. */
    function Id(): (r: nat)
      reads this, manager
      requires Valid()
      ensures r == builder.id && r in manager.registry
    {
      id
    }
  }

  /** A reader over one committed instance, for keys of type `kind`. */
  datatype HashMapBlockfileReader<V> = Reader(kind: KeyKind, storage: Storage<V>)
  {
    /** The id of the storage this reader was opened on. */
    function Id(): (r: nat)
      ensures r == storage.id
    {
      storage.id
    }

    /** Exact lookup of `(prefix, key)`. */
    function Get(prefix: string, key: KeyWrapper): (r: Result<V>)
      ensures r.Err? <==> CompositeKey(prefix, key) !in storage.entries
      ensures r.Ok? ==> r.value == storage.entries[CompositeKey(prefix, key)]
    {
      if CompositeKey(prefix, key) in storage.entries then Ok(storage.entries[CompositeKey(prefix, key)])
      else Err(NotFoundError)
    }

    /** Every entry stored under `prefix`, or NotFound when there is none.
        Every key under the prefix must be of this reader's key type, since
        converting a key back to the reader's type accepts no other. */
    method GetByPrefix(prefix: string) returns (r: Result<seq<Triple<V>>>)
      requires forall ck | ck in storage.entries && ck.prefix == prefix :: KindOf(ck.key) == kind
      ensures r.Err? <==> forall ck | ck in storage.entries :: ck.prefix != prefix
      ensures r.Ok? ==> r.value != []
      ensures r.Ok? ==> Enumerates(r.value, storage.entries, set ck | ck in storage.entries && ck.prefix == prefix)
      ensures r.Ok? ==> forall i | 0 <= i < |r.value| ::
                r.value[i].prefix == prefix && KindOf(r.value[i].key) == kind
    {
      var matched := storage.PrefixKeys(prefix);
      if matched == {} {
        forall ck | ck in storage.entries
          ensures ck.prefix != prefix
        {
          assert ck !in matched;
        }
        return Err(NotFoundError);
      }
      var out := Collect(storage.entries, matched);
      KeysOfContains(out);
      ghost var ck :| ck in matched;
      return Ok(out);
    }

    /** The entries under `prefix` whose key satisfies `op` against `bound`,
        or NotFound when there is none; shared by the four range queries. */
    method ReadRange(prefix: string, op: Comparison, bound: KeyWrapper) returns (r: Result<seq<Triple<V>>>)
      requires KindOf(bound) == kind
      ensures r.Err? <==> forall ck | ck in storage.entries && ck.prefix == prefix :: !Satisfies(ck.key, op, bound)
      ensures r.Ok? ==> r.value != [] && Enumerates(r.value, storage.entries, storage.RangeKeys(prefix, op, bound))
      ensures r.Ok? ==> forall i | 0 <= i < |r.value| :: KindOf(r.value[i].key) == kind
    {
      var matched := storage.RangeKeys(prefix, op, bound);
      if matched == {} {
        forall ck | ck in storage.entries && ck.prefix == prefix
          ensures !Satisfies(ck.key, op, bound)
        {
          assert ck !in matched;
        }
        return Err(NotFoundError);
      }
      var out := Collect(storage.entries, matched);
      KeysOfContains(out);
      forall i | 0 <= i < |out|
        ensures KindOf(out[i].key) == kind
      {
        assert out[i].Key() in matched;
        assert Satisfies(out[i].key, op, bound);
      }
      ghost var ck :| ck in matched;
      return Ok(out);
    }

    /** The entries under `prefix` with a key greater than `bound`, or
        NotFound when there is none. */
    method GetGt(prefix: string, bound: KeyWrapper) returns (r: Result<seq<Triple<V>>>)
      requires KindOf(bound) == kind
      ensures r.Err? <==> forall ck | ck in storage.entries && ck.prefix == prefix :: !Less(bound, ck.key)
      ensures r.Ok? ==> Enumerates(r.value, storage.entries,
                                   set ck | ck in storage.entries && ck.prefix == prefix && Less(bound, ck.key))
      ensures r.Ok? ==> forall i | 0 <= i < |r.value| :: KindOf(r.value[i].key) == kind
    {
      r := ReadRange(prefix, Gt, bound);
      assert storage.RangeKeys(prefix, Gt, bound) ==
             set ck | ck in storage.entries && ck.prefix == prefix && Less(bound, ck.key);
    }

    /** The entries under `prefix` with a key greater than or equal to
        `bound`, or NotFound when there is none. */
    method GetGte(prefix: string, bound: KeyWrapper) returns (r: Result<seq<Triple<V>>>)
      requires KindOf(bound) == kind
      ensures r.Err? <==> forall ck | ck in storage.entries && ck.prefix == prefix ::
                            !Less(bound, ck.key) && ck.key != bound
      ensures r.Ok? ==> Enumerates(r.value, storage.entries,
                                   set ck | ck in storage.entries && ck.prefix == prefix &&
                                            (Less(bound, ck.key) || ck.key == bound))
      ensures r.Ok? ==> forall i | 0 <= i < |r.value| :: KindOf(r.value[i].key) == kind
    {
      r := ReadRange(prefix, Gte, bound);
      assert storage.RangeKeys(prefix, Gte, bound) ==
             set ck | ck in storage.entries && ck.prefix == prefix && (Less(bound, ck.key) || ck.key == bound);
    }

    /** The entries under `prefix` with a key less than `bound`, or
        NotFound when there is none. */
    method GetLt(prefix: string, bound: KeyWrapper) returns (r: Result<seq<Triple<V>>>)
      requires KindOf(bound) == kind
      ensures r.Err? <==> forall ck | ck in storage.entries && ck.prefix == prefix :: !Less(ck.key, bound)
      ensures r.Ok? ==> Enumerates(r.value, storage.entries,
                                   set ck | ck in storage.entries && ck.prefix == prefix && Less(ck.key, bound))
      ensures r.Ok? ==> forall i | 0 <= i < |r.value| :: KindOf(r.value[i].key) == kind
    {
      r := ReadRange(prefix, Lt, bound);
      assert storage.RangeKeys(prefix, Lt, bound) ==
             set ck | ck in storage.entries && ck.prefix == prefix && Less(ck.key, bound);
    }

    /** The entries under `prefix` with a key less than or equal to
        `bound`, or NotFound when there is none. */
    method GetLte(prefix: string, bound: KeyWrapper) returns (r: Result<seq<Triple<V>>>)
      requires KindOf(bound) == kind
      ensures r.Err? <==> forall ck | ck in storage.entries && ck.prefix == prefix ::
                            !Less(ck.key, bound) && ck.key != bound
      ensures r.Ok? ==> Enumerates(r.value, storage.entries,
                                   set ck | ck in storage.entries && ck.prefix == prefix &&
                                            (Less(ck.key, bound) || ck.key == bound))
      ensures r.Ok? ==> forall i | 0 <= i < |r.value| :: KindOf(r.value[i].key) == kind
    {
      r := ReadRange(prefix, Lte, bound);
      assert storage.RangeKeys(prefix, Lte, bound) ==
             set ck | ck in storage.entries && ck.prefix == prefix && (Less(ck.key, bound) || ck.key == bound);
    }
  }

  /** Opens a reader on the instance committed under `id`; the instance must
      be committed, since opening anything else is a fatal error. */
  function Open<V>(kind: KeyKind, id: nat, manager: StorageManager<V>): (r: HashMapBlockfileReader<V>)
    reads manager
    requires manager.Valid() && manager.Get(id).Some?
    ensures r.Id() == id && r.kind == kind
    ensures r.storage == manager.registry[id].storage
  {
    Reader(kind, manager.Get(id).value)
  }
}
