/** Properties of the in-memory blockfile: how the range selections relate
    to each other and to the prefix, what they give at the smallest and
    largest keys, and the write-commit-read round trips the blockfile is
    used for. */
module Properties {
  import opened Keys
  import opened MemoryStorage
  import opened ReaderWriter

  /** Every key stored under `prefix` is of key type `kind`, as it is when
      one statically typed writer fills the prefix. */
  ghost predicate PrefixOfKind<V>(s: Storage<V>, prefix: string, kind: KeyKind)
  {
    forall ck | ck in s.entries && ck.prefix == prefix :: KindOf(ck.key) == kind
  }

  /** A listed query result holds the triple of every matching entry. */
  lemma EnumeratesContains<V>(out: seq<Triple<V>>, entries: map<CompositeKey, V>,
                              matched: set<CompositeKey>, ck: CompositeKey)
    requires Enumerates(out, entries, matched) && ck in matched
    ensures ck in entries && Triple(ck.prefix, ck.key, entries[ck]) in out
  {
    assert ck in KeysOf(out);
    var i :| 0 <= i < |out| && out[i].Key() == ck;
    assert out[i] == Triple(ck.prefix, ck.key, entries[ck]);
  }

  /** A sequence without repeated elements holds each of its elements once. */
  lemma {:induction false} DistinctMultiplicity<T>(s: seq<T>)
    requires forall i, j | 0 <= i < j < |s| :: s[i] != s[j]
    ensures forall t :: multiset(s)[t] == if t in s then 1 else 0
  {
    if s != [] {
      var init, last := s[..|s| - 1], s[|s| - 1];
      assert s == init + [last];
      DistinctMultiplicity(init);
      assert last !in init;
      assert multiset(s) == multiset(init) + multiset{last};
    }
  }

  /** Two listings of the same matching entries hold the same triples, each
      once: they differ at most in order. */
  lemma EnumerationsAgree<V>(a: seq<Triple<V>>, b: seq<Triple<V>>, entries: map<CompositeKey, V>,
                             matched: set<CompositeKey>)
    requires Enumerates(a, entries, matched) && Enumerates(b, entries, matched)
    ensures multiset(a) == multiset(b)
  {
    assert forall i, j | 0 <= i < j < |a| :: a[i] != a[j] by {
      forall i, j | 0 <= i < j < |a| ensures a[i] != a[j] { assert a[i].Key() != a[j].Key(); }
    }
    assert forall i, j | 0 <= i < j < |b| :: b[i] != b[j] by {
      forall i, j | 0 <= i < j < |b| ensures b[i] != b[j] { assert b[i].Key() != b[j].Key(); }
    }
    DistinctMultiplicity(a);
    DistinctMultiplicity(b);
    forall i | 0 <= i < |a|
      ensures a[i] in b
    {
      assert a[i].Key() in KeysOf(a);
      EnumeratesContains(b, entries, matched, a[i].Key());
    }
    forall i | 0 <= i < |b|
      ensures b[i] in a
    {
      assert b[i].Key() in KeysOf(b);
      EnumeratesContains(a, entries, matched, b[i].Key());
    }
    forall t
      ensures multiset(a)[t] == multiset(b)[t]
    {
    }
  }

  /** Under one prefix, "greater than" and "at most" split the entries
      between them, with nothing in both. */
  lemma GtLtePartition<V>(s: Storage<V>, prefix: string, bound: KeyWrapper)
    requires PrefixOfKind(s, prefix, KindOf(bound))
    ensures s.RangeKeys(prefix, Gt, bound) + s.RangeKeys(prefix, Lte, bound) == s.PrefixKeys(prefix)
    ensures s.RangeKeys(prefix, Gt, bound) !! s.RangeKeys(prefix, Lte, bound)
  {
    forall ck | ck in s.PrefixKeys(prefix)
      ensures Satisfies(ck.key, Gt, bound) != Satisfies(ck.key, Lte, bound)
    {
      KeyTrichotomy(ck.key, bound);
    }
  }

  /** Under one prefix, "less than" and "at least" split the entries
      between them, with nothing in both. */
  lemma LtGtePartition<V>(s: Storage<V>, prefix: string, bound: KeyWrapper)
    requires PrefixOfKind(s, prefix, KindOf(bound))
    ensures s.RangeKeys(prefix, Lt, bound) + s.RangeKeys(prefix, Gte, bound) == s.PrefixKeys(prefix)
    ensures s.RangeKeys(prefix, Lt, bound) !! s.RangeKeys(prefix, Gte, bound)
  {
    forall ck | ck in s.PrefixKeys(prefix)
      ensures Satisfies(ck.key, Lt, bound) != Satisfies(ck.key, Gte, bound)
    {
      KeyTrichotomy(ck.key, bound);
    }
  }

  /** Raising the bound never lets more entries through "greater than" nor
      fewer through "less than". */
  lemma RangeMonotone<V>(s: Storage<V>, prefix: string, lo: KeyWrapper, hi: KeyWrapper)
    requires Less(lo, hi)
    ensures s.RangeKeys(prefix, Gt, hi) <= s.RangeKeys(prefix, Gte, hi) <= s.RangeKeys(prefix, Gt, lo)
    ensures s.RangeKeys(prefix, Lt, lo) <= s.RangeKeys(prefix, Lte, lo) <= s.RangeKeys(prefix, Lt, hi)
  {
    forall ck | ck in s.RangeKeys(prefix, Gte, hi)
      ensures ck in s.RangeKeys(prefix, Gt, lo)
    {
      if ck.key != hi {
        KeyTransitive(lo, hi, ck.key);
      }
    }
    forall ck | ck in s.RangeKeys(prefix, Lte, lo)
      ensures ck in s.RangeKeys(prefix, Lt, hi)
    {
      if ck.key != lo {
        KeyTransitive(ck.key, lo, hi);
      }
    }
  }

  /** A bound at or above every key under the prefix (such as the largest
      key) leaves nothing greater, and everything at most the bound. */
  lemma AtOrAboveMaximum<V>(s: Storage<V>, prefix: string, bound: KeyWrapper)
    requires forall ck | ck in s.entries && ck.prefix == prefix :: Less(ck.key, bound) || ck.key == bound
    ensures s.RangeKeys(prefix, Gt, bound) == {}
    ensures s.RangeKeys(prefix, Lte, bound) == s.PrefixKeys(prefix)
  {
    forall ck | ck in s.PrefixKeys(prefix)
      ensures !Less(bound, ck.key)
    {
      KeyTrichotomy(ck.key, bound);
    }
  }

  /** A bound above every key under the prefix leaves nothing at or above
      it, and everything below it. */
  lemma AboveMaximum<V>(s: Storage<V>, prefix: string, bound: KeyWrapper)
    requires forall ck | ck in s.entries && ck.prefix == prefix :: Less(ck.key, bound)
    ensures s.RangeKeys(prefix, Gte, bound) == {}
    ensures s.RangeKeys(prefix, Lt, bound) == s.PrefixKeys(prefix)
  {
    forall ck | ck in s.PrefixKeys(prefix)
      ensures !Less(bound, ck.key) && ck.key != bound
    {
      KeyTrichotomy(ck.key, bound);
    }
  }

  /** A bound at or below every key under the prefix (such as the smallest
      key) leaves nothing smaller, and everything at least the bound. */
  lemma AtOrBelowMinimum<V>(s: Storage<V>, prefix: string, bound: KeyWrapper)
    requires forall ck | ck in s.entries && ck.prefix == prefix :: Less(bound, ck.key) || ck.key == bound
    ensures s.RangeKeys(prefix, Lt, bound) == {}
    ensures s.RangeKeys(prefix, Gte, bound) == s.PrefixKeys(prefix)
  {
    forall ck | ck in s.PrefixKeys(prefix)
      ensures !Less(ck.key, bound)
    {
      KeyTrichotomy(ck.key, bound);
    }
  }

  /** A bound below every key under the prefix leaves nothing at or below
      it, and everything above it. */
  lemma BelowMinimum<V>(s: Storage<V>, prefix: string, bound: KeyWrapper)
    requires forall ck | ck in s.entries && ck.prefix == prefix :: Less(bound, ck.key)
    ensures s.RangeKeys(prefix, Lte, bound) == {}
    ensures s.RangeKeys(prefix, Gt, bound) == s.PrefixKeys(prefix)
  {
    forall ck | ck in s.PrefixKeys(prefix)
      ensures !Less(ck.key, bound) && ck.key != bound
    {
      KeyTrichotomy(ck.key, bound);
    }
  }

  /** Writing one entry into a new blockfile, committing it and opening a
      reader on the writer's id reads the entry back, for a key of any type. */
  method RoundTrip<V>(prefix: string, key: KeyWrapper, value: V) returns (r: Result<V>)
    ensures r == Ok(value)
  {
    var manager := new StorageManager<V>();
    var writer := new MemoryBlockfileWriter(manager);
    var _ := writer.Set(prefix, key, value);
    var _ := writer.Commit();
    var reader := Open(KindOf(key), writer.Id(), manager);
    r := reader.Get(prefix, key);
  }

  /** The test pattern in general: a writer that is still building stages
      entries under distinct composite keys, none staged before, and
      commits; a reader opened on the writer's id reads every one of them
      back, and that reader's id is the writer's id. */
  method WriteAllCommitRead<V>(w: MemoryBlockfileWriter<V>, kind: KeyKind, writes: seq<Triple<V>>)
    returns (reader: HashMapBlockfileReader<V>)
    requires w.Valid() && w.IsBuilding()
    requires forall i | 0 <= i < |writes| :: writes[i].Key() !in w.builder.entries
    requires forall i, j | 0 <= i < j < |writes| :: writes[i].Key() != writes[j].Key()
    modifies w.builder, w.manager
    ensures reader.Id() == w.id && reader.kind == kind
    ensures w.Valid() && w.manager.Get(w.id) == Some(reader.storage)
    ensures forall other | other in old(w.manager.registry) && other != w.id ::
              other in w.manager.registry && w.manager.registry[other] == old(w.manager.registry)[other]
    ensures reader.storage.entries.Keys == old(w.builder.entries).Keys + set i | 0 <= i < |writes| :: writes[i].Key()
    ensures forall ck | ck in old(w.builder.entries) :: reader.storage.entries[ck] == old(w.builder.entries)[ck]
    ensures forall i | 0 <= i < |writes| ::
              reader.Get(writes[i].prefix, writes[i].key) == Ok(writes[i].value)
  {
    ghost var before := w.builder.entries;
    for n := 0 to |writes|
      invariant w.Valid() && w.IsBuilding()
      invariant w.manager.registry == old(w.manager.registry)
      invariant w.builder.entries.Keys == before.Keys + set i | 0 <= i < n :: writes[i].Key()
      invariant forall ck | ck in before :: w.builder.entries[ck] == before[ck]
      invariant forall i | 0 <= i < n :: w.builder.entries[writes[i].Key()] == writes[i].value
    {
      var _ := w.Set(writes[n].prefix, writes[n].key, writes[n].value);
    }
    var _ := w.Commit();
    reader := Open(kind, w.Id(), w.manager);
  }

  /** The prefix scan in general: on a fresh manager, entries written under
      distinct composite keys, those under `prefix` with keys of one type,
      and committed are found
      by a scan of `prefix` exactly when one of them was written under
      `prefix`, and then the scan lists precisely those written entries,
      each once, whatever the order of the writes. */
  method WriteAllScanPrefix<V>(kind: KeyKind, writes: seq<Triple<V>>, prefix: string)
    returns (r: Result<seq<Triple<V>>>)
    requires forall i | 0 <= i < |writes| && writes[i].prefix == prefix :: KindOf(writes[i].key) == kind
    requires forall i, j | 0 <= i < j < |writes| :: writes[i].Key() != writes[j].Key()
    ensures r.Err? <==> forall i | 0 <= i < |writes| :: writes[i].prefix != prefix
    ensures r.Ok? ==> forall t :: t in r.value <==> t in writes && t.prefix == prefix
    ensures r.Ok? ==> forall i, j | 0 <= i < j < |r.value| :: r.value[i].Key() != r.value[j].Key()
  {
    var manager := new StorageManager<V>();
    var writer := new MemoryBlockfileWriter(manager);
    var reader := WriteAllCommitRead(writer, kind, writes);
    ghost var entries := reader.storage.entries;
    forall i | 0 <= i < |writes|
      ensures writes[i].Key() in entries && entries[writes[i].Key()] == writes[i].value
    {
      assert reader.Get(writes[i].prefix, writes[i].key) == Ok(writes[i].value);
    }
    forall ck | ck in entries && ck.prefix == prefix
      ensures KindOf(ck.key) == kind
    {
      var i :| 0 <= i < |writes| && writes[i].Key() == ck;
    }
    r := reader.GetByPrefix(prefix);
    if r.Ok? {
      ScanListsWrites(writes, prefix, entries, r.value);
    }
  }

  /** A listing of the entries under `prefix` of a storage that holds
      exactly `writes` is exactly the writes under `prefix`. */
  lemma ScanListsWrites<V>(writes: seq<Triple<V>>, prefix: string, entries: map<CompositeKey, V>,
                           out: seq<Triple<V>>)
    requires entries.Keys == set i | 0 <= i < |writes| :: writes[i].Key()
    requires forall i | 0 <= i < |writes| :: writes[i].Key() in entries && entries[writes[i].Key()] == writes[i].value
    requires Enumerates(out, entries, set ck | ck in entries && ck.prefix == prefix)
    ensures forall t :: t in out <==> t in writes && t.prefix == prefix
  {
    forall t
      ensures t in out <==> t in writes && t.prefix == prefix
    {
      if t in out {
        var k :| 0 <= k < |out| && out[k] == t;
        assert t.Key() in KeysOf(out);
        var i :| 0 <= i < |writes| && writes[i].Key() == t.Key();
        assert t == writes[i];
      }
      if t in writes && t.prefix == prefix {
        var i :| 0 <= i < |writes| && writes[i] == t;
        assert t.Key() in KeysOf(out);
        var k :| 0 <= k < |out| && out[k].Key() == t.Key();
        assert out[k] == t;
      }
    }
  }

  /** A reader opened on a writer's id after the commit reports that id. */
  method ReaderIdMatchesWriter<V>(prefix: string, key: KeyWrapper, value: V) returns (writerId: nat, readerId: nat)
    ensures readerId == writerId
  {
    var manager := new StorageManager<V>();
    var writer := new MemoryBlockfileWriter(manager);
    var _ := writer.Set(prefix, key, value);
    var _ := writer.Commit();
    writerId := writer.Id();
    var reader := Open(KindOf(key), writerId, manager);
    readerId := reader.Id();
  }

  /** Asking a reader the same prefix scan twice gives the same outcome and,
      on success, the same entries, possibly in another order. */
  method RepeatedPrefixScansAgree<V>(reader: HashMapBlockfileReader<V>, prefix: string)
    returns (first: Result<seq<Triple<V>>>, second: Result<seq<Triple<V>>>)
    requires forall ck | ck in reader.storage.entries && ck.prefix == prefix :: KindOf(ck.key) == reader.kind
    ensures first.Ok? == second.Ok?
    ensures first.Ok? ==> multiset(first.value) == multiset(second.value)
  {
    first := reader.GetByPrefix(prefix);
    second := reader.GetByPrefix(prefix);
    if first.Ok? {
      EnumerationsAgree(first.value, second.value, reader.storage.entries,
                        set ck | ck in reader.storage.entries && ck.prefix == prefix);
    }
  }

  /** Asking a reader the same range query twice gives the same outcome and,
      on success, the same entries, possibly in another order. */
  method RepeatedRangeQueriesAgree<V>(reader: HashMapBlockfileReader<V>, prefix: string, op: Comparison,
                                      bound: KeyWrapper)
    returns (first: Result<seq<Triple<V>>>, second: Result<seq<Triple<V>>>)
    requires KindOf(bound) == reader.kind
    ensures first.Ok? == second.Ok?
    ensures first.Ok? ==> multiset(first.value) == multiset(second.value)
  {
    first := reader.ReadRange(prefix, op, bound);
    second := reader.ReadRange(prefix, op, bound);
    if first.Ok? {
      EnumerationsAgree(first.value, second.value, reader.storage.entries, reader.storage.RangeKeys(prefix, op, bound));
    }
  }

  /** Entries staged but not yet committed are not visible: the manager
      has no committed storage under the writer's id. */
  method UncommittedIsInvisible<V>(prefix: string, key: KeyWrapper, value: V) returns (r: Option<Storage<V>>)
    ensures r == None
  {
    var manager := new StorageManager<V>();
    var writer := new MemoryBlockfileWriter(manager);
    var _ := writer.Set(prefix, key, value);
    r := manager.Get(writer.Id());
  }

  /** Commits "key1" and "key2" under "prefix" and "key3" under
      "different_prefix", and opens a text-keyed reader on them. */
  method CommitTwoPrefixes() returns (reader: HashMapBlockfileReader<string>)
    ensures reader.kind == StrKind
    ensures reader.storage.entries == map[CompositeKey("prefix", Str("key1")) := "value1",
                                          CompositeKey("prefix", Str("key2")) := "value2",
                                          CompositeKey("different_prefix", Str("key3")) := "value3"]
  {
    var manager := new StorageManager<string>();
    var writer := new MemoryBlockfileWriter(manager);
    var _ := writer.Set("prefix", Str("key1"), "value1");
    var _ := writer.Set("prefix", Str("key2"), "value2");
    var _ := writer.Set("different_prefix", Str("key3"), "value3");
    var _ := writer.Commit();
    reader := Open(StrKind, writer.Id(), manager);
  }

  /** Two entries under "prefix" and one under "different_prefix": the
      prefix scan of "prefix" returns exactly the first two. */
  method GetByPrefixScenario() returns (values: seq<Triple<string>>)
    ensures |values| == 2
    ensures Triple("prefix", Str("key1"), "value1") in values
    ensures Triple("prefix", Str("key2"), "value2") in values
  {
    var reader := CommitTwoPrefixes();
    var k1, k2 := CompositeKey("prefix", Str("key1")), CompositeKey("prefix", Str("key2"));
    ghost var matched := set ck | ck in reader.storage.entries && ck.prefix == "prefix";
    assert matched == {k1, k2};
    var r := reader.GetByPrefix("prefix");
    assert k1 in reader.storage.entries;
    values := r.value;
    EnumeratesContains(values, reader.storage.entries, matched, k1);
    EnumeratesContains(values, reader.storage.entries, matched, k2);
  }

  function IntKey(n: u32): CompositeKey
  {
    CompositeKey("prefix", U32(n))
  }

  /** Commits the entries 1, 2 and 3 under "prefix", holding "value1",
      "value2" and "value3", and opens an integer-keyed reader on them. */
  method CommitOneTwoThree() returns (reader: HashMapBlockfileReader<string>)
    ensures reader.kind == U32Kind
    ensures reader.storage.entries == map[IntKey(1) := "value1", IntKey(2) := "value2", IntKey(3) := "value3"]
  {
    var manager := new StorageManager<string>();
    var writer := new MemoryBlockfileWriter(manager);
    var _ := writer.Set("prefix", U32(1), "value1");
    var _ := writer.Set("prefix", U32(2), "value2");
    var _ := writer.Set("prefix", U32(3), "value3");
    var _ := writer.Commit();
    reader := Open(U32Kind, writer.Id(), manager);
  }

  /** Distinct integers give distinct composite keys under "prefix". */
  lemma {:induction false} IntKeysCardinality(keys: set<u32>)
    ensures |set n | n in keys :: IntKey(n)| == |keys|
    decreases keys
  {
    if keys != {} {
      var n :| n in keys;
      var rest := keys - {n};
      IntKeysCardinality(rest);
      assert (set m | m in keys :: IntKey(m)) == (set m | m in rest :: IntKey(m)) + {IntKey(n)};
    }
  }

  /** The range queries on 1, 2, 3 list every entry of `keys`, each with
      its value "value<n>". */
  ghost predicate ListsOneTwoThree(r: Result<seq<Triple<string>>>, keys: set<u32>)
  {
    && r.Ok?
    && |r.value| == |keys|
    && (1 in keys ==> Triple("prefix", U32(1), "value1") in r.value)
    && (2 in keys ==> Triple("prefix", U32(2), "value2") in r.value)
    && (3 in keys ==> Triple("prefix", U32(3), "value3") in r.value)
  }

  /** What a range query on 1, 2, 3 lists, given the set of keys it matches. */
  lemma ListedOneTwoThree(reader: HashMapBlockfileReader<string>, r: Result<seq<Triple<string>>>,
                          matched: set<CompositeKey>, keys: set<u32>)
    requires reader.storage.entries == map[IntKey(1) := "value1", IntKey(2) := "value2", IntKey(3) := "value3"]
    requires keys <= {1, 2, 3} && matched == set n | n in keys :: IntKey(n)
    requires r.Ok? && Enumerates(r.value, reader.storage.entries, matched)
    ensures ListsOneTwoThree(r, keys)
  {
    var entries := reader.storage.entries;
    IntKeysCardinality(keys);
    if 1 in keys { EnumeratesContains(r.value, entries, matched, IntKey(1)); }
    if 2 in keys { EnumeratesContains(r.value, entries, matched, IntKey(2)); }
    if 3 in keys { EnumeratesContains(r.value, entries, matched, IntKey(3)); }
  }

  /** Greater than 0 gives all three entries, greater than 1 gives 2 and 3,
      greater than 3 gives NotFound. */
  method GetGtScenario() returns (all: Result<seq<Triple<string>>>, some: Result<seq<Triple<string>>>,
                                  none: Result<seq<Triple<string>>>)
    ensures ListsOneTwoThree(all, {1, 2, 3})
    ensures ListsOneTwoThree(some, {2, 3})
    ensures none == Err(NotFoundError)
  {
    var reader := CommitOneTwoThree();
    all := reader.GetGt("prefix", U32(0));
    some := reader.GetGt("prefix", U32(1));
    none := reader.GetGt("prefix", U32(3));
    var entries := reader.storage.entries;
    assert IntKey(1) in entries && IntKey(2) in entries;
    ListedOneTwoThree(reader, all, set ck | ck in entries && ck.prefix == "prefix" && Less(U32(0), ck.key), {1, 2, 3});
    ListedOneTwoThree(reader, some, set ck | ck in entries && ck.prefix == "prefix" && Less(U32(1), ck.key), {2, 3});
  }

  /** At least 1 gives all three entries, at least 2 gives 2 and 3, at least
      4 gives NotFound. */
  method GetGteScenario() returns (all: Result<seq<Triple<string>>>, some: Result<seq<Triple<string>>>,
                                   none: Result<seq<Triple<string>>>)
    ensures ListsOneTwoThree(all, {1, 2, 3})
    ensures ListsOneTwoThree(some, {2, 3})
    ensures none == Err(NotFoundError)
  {
    var reader := CommitOneTwoThree();
    all := reader.GetGte("prefix", U32(1));
    some := reader.GetGte("prefix", U32(2));
    none := reader.GetGte("prefix", U32(4));
    var entries := reader.storage.entries;
    assert IntKey(1) in entries && IntKey(2) in entries;
    ListedOneTwoThree(reader, all, set ck | ck in entries && ck.prefix == "prefix" &&
                                            (Less(U32(1), ck.key) || ck.key == U32(1)), {1, 2, 3});
    ListedOneTwoThree(reader, some, set ck | ck in entries && ck.prefix == "prefix" &&
                                             (Less(U32(2), ck.key) || ck.key == U32(2)), {2, 3});
  }

  /** Less than 4 gives all three entries, less than 3 gives 1 and 2, less
      than 1 gives NotFound. */
  method GetLtScenario() returns (all: Result<seq<Triple<string>>>, some: Result<seq<Triple<string>>>,
                                  none: Result<seq<Triple<string>>>)
    ensures ListsOneTwoThree(all, {1, 2, 3})
    ensures ListsOneTwoThree(some, {1, 2})
    ensures none == Err(NotFoundError)
  {
    var reader := CommitOneTwoThree();
    all := reader.GetLt("prefix", U32(4));
    some := reader.GetLt("prefix", U32(3));
    none := reader.GetLt("prefix", U32(1));
    var entries := reader.storage.entries;
    assert IntKey(1) in entries && IntKey(2) in entries;
    ListedOneTwoThree(reader, all, set ck | ck in entries && ck.prefix == "prefix" && Less(ck.key, U32(4)), {1, 2, 3});
    ListedOneTwoThree(reader, some, set ck | ck in entries && ck.prefix == "prefix" && Less(ck.key, U32(3)), {1, 2});
  }

  /** At most 3 gives all three entries, at most 2 gives 1 and 2, at most 0
      gives NotFound. */
  method GetLteScenario() returns (all: Result<seq<Triple<string>>>, some: Result<seq<Triple<string>>>,
                                   none: Result<seq<Triple<string>>>)
    ensures ListsOneTwoThree(all, {1, 2, 3})
    ensures ListsOneTwoThree(some, {1, 2})
    ensures none == Err(NotFoundError)
  {
    var reader := CommitOneTwoThree();
    all := reader.GetLte("prefix", U32(3));
    some := reader.GetLte("prefix", U32(2));
    none := reader.GetLte("prefix", U32(0));
    var entries := reader.storage.entries;
    assert IntKey(1) in entries && IntKey(2) in entries;
    ListedOneTwoThree(reader, all, set ck | ck in entries && ck.prefix == "prefix" &&
                                            (Less(ck.key, U32(3)) || ck.key == U32(3)), {1, 2, 3});
    ListedOneTwoThree(reader, some, set ck | ck in entries && ck.prefix == "prefix" &&
                                             (Less(ck.key, U32(2)) || ck.key == U32(2)), {1, 2});
  }
}
