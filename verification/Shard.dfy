/** One shard on disk: the bytes of its index file, its values file, and in memory the
    counter of live values and the Bloom filter (src/Shard.cpp). */
module Shard {
  import opened KeyValueTypes
  import opened LinearProbing
  import opened TableBytes
  import opened ShardModel
  import opened StorageHashTable
  import opened BloomFilter

  /** The size of a table that began with the initial size and holds this many keys. */
  function TableSize(used: nat): nat {
    if 3 * used <= 2 * STORAGE_HASH_TABLE_INITIAL_SIZE then STORAGE_HASH_TABLE_INITIAL_SIZE
    else STORAGE_HASH_TABLE_MAX_SIZE
  }

  /** The bytes hold a table the program can have written: searchable, counted, not
      overloaded, and doubled once it held more keys than the initial size is for. */
  ghost predicate IndexFileOk(hash: Hasher, bytes: seq<Byte>) {
    && WellFormed(bytes)
    && var slots := SlotsOf(bytes);
       && WellProbed(hash, slots)
       && UsedOf(bytes) == Used(slots)
       && WithinLoad(Used(slots), |slots|)
       && |slots| == TableSize(Used(slots))
  }

  /** The index a file stands for; bytes that cannot be a table stand for none. */
  ghost function IndexIn(bytes: seq<Byte>): map<Key, Ptr> {
    if WellFormed(bytes) then Contents(SlotsOf(bytes)) else map[]
  }

  /** The table refuses a key exactly when the shard is full. */
  lemma CapacityDecides(hash: Hasher, bytes: seq<Byte>, key: Key)
    requires IndexFileOk(hash, bytes)
    ensures var slots := SlotsOf(bytes);
            Overloads(Contents(slots), key, |slots|) && 2 * |slots| > STORAGE_HASH_TABLE_MAX_SIZE
            <==> key !in Contents(slots) && |Contents(slots)| >= SHARD_CAPACITY
  {
    UsedIsSize(SlotsOf(bytes));
  }

  /** The size of the table follows from how many keys it holds, put after put. */
  lemma SizeFollows(hash: Hasher, bytes: seq<Byte>, e: Entry)
    requires IndexFileOk(hash, bytes)
    ensures var slots := SlotsOf(bytes);
            var size := if Overloads(Contents(slots), e.key, |slots|) then 2 * |slots| else |slots|;
            e.key in Contents(slots) || |Contents(slots)| < SHARD_CAPACITY ==>
              size == TableSize(|Contents(slots)[e.key := e.ptr]|)
  {
    UsedIsSize(SlotsOf(bytes));
    SizeWithKey(Contents(SlotsOf(bytes)), e);
  }

  lemma SizeWithKey(m: map<Key, Ptr>, e: Entry)
    ensures |m[e.key := e.ptr]| == if e.key in m then |m| else |m| + 1
  {
    assert m[e.key := e.ptr].Keys == m.Keys + {e.key};
    assert e.key in m ==> m[e.key := e.ptr].Keys == m.Keys;
  }

  class Shard {
    const hash: Hasher
    const filter: BloomFilter
    var aliveValuesCnt: nat
    var indexFile: seq<Byte>
    var valuesFile: seq<Value>

    ghost function State(): ShardState
      reads this
    {
      ShardState(IndexIn(indexFile), valuesFile, aliveValuesCnt)
    }

    /** The index file can be read, and the filter stands for its keys. */
    ghost predicate FilesOk()
      reads this, filter
    {
      && IndexFileOk(hash, indexFile)
      && filter.Valid() && filter.hash == hash
      && filter.Filters(State().index.Keys)
    }

    ghost predicate Valid()
      reads this, filter
    {
      FilesOk() && ShardInv(State())
    }

    constructor Create(hash: Hasher)
      ensures Valid() && fresh(filter)
      ensures this.hash == hash && State() == EMPTY_SHARD
      ensures |SlotsOf(indexFile)| == 34 && EmptyTable(indexFile, 34)
    {
      this.hash := hash;
      filter := new BloomFilter(hash);
      aliveValuesCnt := 0;
      valuesFile := [];
      indexFile := [];
      new;
      var table := new StorageHashTable(hash, STORAGE_HASH_TABLE_INITIAL_SIZE);
      StoreTable(table);
      FreeSlotsAreEmptyTable(indexFile);
    }

    /** A shard in memory for an index with these entries; its files are still to be put in place. */
    constructor FromEntries(hash: Hasher, entries: seq<Entry>, ghost index: map<Key, Ptr>)
      requires Enumerates(entries, index)
      ensures this.hash == hash && fresh(filter) && filter.Valid() && filter.hash == hash
      ensures aliveValuesCnt == |index| % 256 && filter.Filters(index.Keys)
    {
      this.hash := hash;
      filter := new BloomFilter(hash);
      aliveValuesCnt := |entries| % 256;
      valuesFile := [];
      indexFile := [];
      new;
      EnumeratesPrefix(entries, index, |entries|);
      for i := 0 to |entries|
        modifies filter
        invariant filter.Valid() && filter.Filters(Contents(entries[..i]).Keys)
      {
        NewToEarlier(entries, index, i);
        var e := entries[i];
        AddToFilter(e.key, Contents(entries[..i]).Keys);
        assert Contents(entries[..i + 1]).Keys == Contents(entries[..i]).Keys + {e.key};
      }
      assert entries[..|entries|] == entries;
    }

    /** The table in the index file. */
    method LoadTable() returns (table: StorageHashTable)
      requires IndexFileOk(hash, indexFile)
      ensures fresh(table) && table.hash == hash && table.Valid() && table.data == SlotsOf(indexFile)
    {
      WellFormedLengths(indexFile);
      var read := StorageHashTable.Deserialize(hash, indexFile);
      table := read.value;
    }

    method StoreTable(table: StorageHashTable)
      requires table.hash == hash && table.Valid()
      requires |table.data| == TableSize(|table.Map()|)
      modifies this`indexFile
      ensures IndexFileOk(hash, indexFile) && SlotsOf(indexFile) == table.data
      ensures |indexFile| == 17 * |table.data| + 8
    {
      indexFile := table.SerializeToByteArray();
      PowGrows(COUNTER_SIZE);
      UsedIsSize(table.data);
      TableReadsBack(table.data, table.usedSize);
    }

    method ReadValueDirectly(ptr: Ptr) returns (value: Value)
      requires ptr.GetIndex() < |valuesFile|
      ensures value == valuesFile[ptr.GetIndex()]
    {
      value := valuesFile[ptr.GetOffset() / VALUE_SIZE];
    }

    method WriteValueDirectly(ptr: Ptr, value: Value)
      requires ptr.GetIndex() < |valuesFile|
      modifies this`valuesFile
      ensures State() == WriteDirectly(old(State()), ptr, value)
      ensures old(Valid()) ==> Valid()
    {
      valuesFile := valuesFile[ptr.GetOffset() / VALUE_SIZE := value];
    }

    /** Appends to the values file; the offset of the appended value. */
    method Append(value: Value) returns (offset: nat)
      modifies this`valuesFile
      ensures offset == |old(valuesFile)| * VALUE_SIZE
      ensures valuesFile == old(valuesFile) + [value]
    {
      offset := |valuesFile| * VALUE_SIZE;
      valuesFile := valuesFile + [value];
    }

    method IncrementAliveValuesCnt()
      modifies this`aliveValuesCnt
      ensures aliveValuesCnt == Increment(old(aliveValuesCnt))
      ensures old(aliveValuesCnt) < 256 ==>
                aliveValuesCnt == if old(aliveValuesCnt) == 255 then 0 else old(aliveValuesCnt) + 1
      ensures old(Valid()) ==> Valid()
    {
      aliveValuesCnt := (aliveValuesCnt + 1) % 256;
    }

    method DecrementAliveValuesCnt()
      modifies this`aliveValuesCnt
      ensures aliveValuesCnt == Decrement(old(aliveValuesCnt))
      ensures old(aliveValuesCnt) < 256 ==>
                aliveValuesCnt == if old(aliveValuesCnt) == 0 then 255 else old(aliveValuesCnt) - 1
      ensures old(Valid()) ==> Valid()
    {
      aliveValuesCnt := if aliveValuesCnt == 0 then 255 else (aliveValuesCnt - 1) % 256;
    }

    method IsRebuildRequired() returns (required: bool)
      ensures required <==> RebuildRequired(State())
      ensures Valid() ==> (required <==> |valuesFile| > 2 * aliveValuesCnt)
    {
      var valuesCnt := |valuesFile| * VALUE_SIZE / VALUE_SIZE % 256;
      required := valuesCnt > 2 * aliveValuesCnt;
    }

    /** The pointer is the index's, whether or not the filter answered for it. */
    method ReadValue(key: Key) returns (entry: Entry, value: Option<Value>)
      requires Valid()
      ensures entry == Entry(key, Lookup(State().index, key)) && !entry.ptr.IsNonexistent()
      ensures value == Stored(State(), key)
    {
      var maybe := filter.CheckExist(key);
      FilterIsSound(key);
      if !maybe {
        return Entry(key, EMPTY_PTR), None;
      }
      var table := LoadTable();
      var slot := table.Get(key);
      var ptr := if slot.Some? then table.data[slot.value].ptr else EMPTY_PTR;
      entry, value := Entry(key, ptr), None;
      match ptr.GetType() {
        case PRESENT =>
          var v := ReadValueDirectly(ptr);
          value := Some(v);
        case _ =>
      }
    }

    /** The index file has 586 bytes while it holds 22 keys at most, and 1164 from then on. */
    lemma IndexFileSize()
      requires Valid()
      ensures |SlotsOf(indexFile)| == if |State().index| <= 22 then 34 else 68
      ensures |indexFile| == if |State().index| <= 22 then 586 else 1164
    {
      UsedIsSize(SlotsOf(indexFile));
    }

    /** Every indexed key passes the filter. */
    lemma FilterIsSound(key: Key)
      requires Valid()
      ensures key in State().index ==> filter.Passes(key)
    {
    }

    /** None when the index overflows, which ends the program. */
    method WriteValue(key: Key, value: Value) returns (entry: Option<Entry>)
      requires Valid()
      modifies this, filter
      ensures entry.None? <==> Overflows(old(State()), key)
      ensures entry.Some? ==>
                && Valid()
                && (State(), entry.value.ptr) == ShardModel.WriteValue(old(State()), key, value)
                && entry.value.key == key
                && SlotsOf(indexFile) == TablePut(hash, SlotsOf(old(indexFile)), entry.value)
    {
      if !Overflows(State(), key) {
        WriteValueIsLocal(State(), key, value);
      }
      var table := LoadTable();
      var slot := table.Get(key);
      var ptr := if slot.Some? then table.data[slot.value].ptr else EMPTY_PTR;
      match ptr.GetType() {
        case PRESENT =>
          HeldPut(hash, table.data, table.data[slot.value], slot.value);
          WriteValueDirectly(ptr, value);
          entry := Some(Entry(key, ptr));
        case DELETED =>
          HeldPut(hash, table.data, Entry(key, ptr.SetValuePresent(true)), slot.value);
          Revive(table, slot.value, value);
          entry := Some(Entry(key, ptr.SetValuePresent(true)));
        case EMPTY =>
          entry := AppendNew(table, key, value);
        case NONEXISTENT =>
          assert false;
      }
    }

    /** The case of a write in which the index entry is marked deleted. */
    method Revive(table: StorageHashTable, slot: nat, value: Value)
      requires FilesOk() && table.hash == hash && table.Valid() && table.data == SlotsOf(indexFile)
      requires slot < |table.data| && table.data[slot].ptr.IsDeleted()
      requires table.data[slot].ptr.GetIndex() < |valuesFile| <= SHARD_CAPACITY
      modifies this, table
      ensures FilesOk()
      ensures var e, s := SlotsOf(old(indexFile))[slot], old(State());
              State() == WriteDirectly(s, e.ptr, value).(
                index := s.index[e.key := e.ptr.SetValuePresent(true)],
                alive := Increment(s.alive))
      ensures var slots := SlotsOf(old(indexFile));
              SlotsOf(indexFile) == slots[slot := Entry(slots[slot].key, slots[slot].ptr.SetValuePresent(true))]
    {
      WriteValueDirectly(table.data[slot].ptr, value);
      IncrementAliveValuesCnt();
      Reflag(table, slot, true);
    }

    /** The last case of a write: the key is not in the index. */
    method AppendNew(table: StorageHashTable, key: Key, value: Value) returns (entry: Option<Entry>)
      requires FilesOk() && key !in State().index && |State().values| <= MAX_PTR_INDEX
      requires table.hash == hash && table.Valid() && table.data == SlotsOf(indexFile)
      modifies this, filter, table
      ensures entry.None? <==> |old(State()).index| >= SHARD_CAPACITY
      ensures entry.Some? ==>
                && FilesOk()
                && State() == ShardModel.AppendNew(old(State()), key, value)
                && entry.value == Entry(key, NextPtr(old(State())))
                && SlotsOf(indexFile) == TablePut(hash, SlotsOf(old(indexFile)), entry.value)
    {
      ghost var before := State();
      var offset := Append(value);
      IncrementAliveValuesCnt();
      AddToFilter(key, before.index.Keys);
      var newEntry := Entry(key, Ptr.AtOffset(offset, true));
      var ok := PutAndStore(table, newEntry);
      if !ok {
        return None;
      }
      assert State().index.Keys == before.index.Keys + {key};
      entry := Some(newEntry);
    }

    method AddToFilter(key: Key, ghost keys: set<Key>)
      requires filter.Valid() && filter.hash == hash && filter.Filters(keys)
      modifies filter
      ensures filter.Valid() && filter.Filters(keys + {key})
    {
      ghost var bits := filter.bitset;
      filter.Add(key);
      BitsOfOneMore(hash, filter.seeds, bits, filter.bitset, keys, key);
    }

    method PutAndStore(table: StorageHashTable, entry: Entry) returns (ok: bool)
      requires IndexFileOk(hash, indexFile) && !entry.IsFree()
      requires table.hash == hash && table.Valid() && table.data == SlotsOf(indexFile)
      modifies this`indexFile, table
      ensures var index := Contents(SlotsOf(old(indexFile)));
              && (ok <==> entry.key in index || |index| < SHARD_CAPACITY)
              && (ok ==> IndexFileOk(hash, indexFile) && Contents(SlotsOf(indexFile)) == index[entry.key := entry.ptr])
              && (ok ==> SlotsOf(indexFile) == TablePut(hash, SlotsOf(old(indexFile)), entry))
    {
      CapacityDecides(hash, indexFile, entry.key);
      SizeFollows(hash, indexFile, entry);
      ok := table.Put(entry);
      if ok {
        StoreTable(table);
      }
    }

    /** The file was written exactly if the key was present, and then at its slot only. */
    ghost predicate FileMarked(index: map<Key, Ptr>, slots: seq<Entry>, entry: Entry)
      reads this
    {
      && |slots| > 0 && WellFormed(indexFile)
      && SlotsOf(indexFile) == if Lookup(index, entry.key).IsPresent() then TablePut(hash, slots, entry) else slots
    }

    /** Marks the key deleted in the index file; whether it was there and not yet deleted. */
    method MarkDeletedOnDisk(key: Key) returns (entry: Entry, marked: bool)
      requires Valid()
      modifies this`indexFile
      ensures Valid()
      ensures State() == MarkDeleted(old(State()), key)
      ensures marked <==> Lookup(old(State()).index, key).IsPresent()
      ensures entry == Entry(key, Lookup(State().index, key)) && (entry.ptr.IsEmpty() || entry.ptr.IsDeleted())
      ensures FileMarked(old(State()).index, SlotsOf(old(indexFile)), entry)
    {
      MarkDeletedIsLocal(State(), key);
      marked := false;
      var maybe := filter.CheckExist(key);
      FilterIsSound(key);
      if !maybe {
        return Entry(key, EMPTY_PTR), false;
      }
      var table := LoadTable();
      var slot := table.Get(key);
      var ptr := if slot.Some? then table.data[slot.value].ptr else EMPTY_PTR;
      entry := Entry(key, ptr);
      if ptr.IsPresent() {
        HeldPut(hash, table.data, Entry(key, ptr.SetValuePresent(false)), slot.value);
        Reflag(table, slot.value, false);
        entry, marked := Entry(key, ptr.SetValuePresent(false)), true;
      }
    }

    /** Sets the flag of an index entry in the file. */
    method Reflag(table: StorageHashTable, slot: nat, isPresent: bool)
      requires FilesOk() && table.hash == hash && table.Valid() && table.data == SlotsOf(indexFile)
      requires slot < |table.data| && (table.data[slot].ptr.IsPresent() || table.data[slot].ptr.IsDeleted())
      requires table.data[slot].ptr.GetIndex() <= MAX_PTR_INDEX
      modifies this`indexFile, table
      ensures FilesOk()
      ensures var e, s := SlotsOf(old(indexFile))[slot], old(State());
              State() == s.(index := s.index[e.key := e.ptr.SetValuePresent(isPresent)])
      ensures var slots := SlotsOf(old(indexFile));
              SlotsOf(indexFile) == slots[slot := Entry(slots[slot].key, slots[slot].ptr.SetValuePresent(isPresent))]
    {
      ghost var index, e := State().index, table.data[slot];
      UsedIsSize(table.data);
      table.SetValuePresent(slot, isPresent);
      UsedIsSize(table.data);
      UsedAfterUpdate(SlotsOf(indexFile), slot, table.data[slot]);
      StoreTable(table);
      assert e.key in index by {
        ContentsRepresents(SlotsOf(old(indexFile)));
      }
      assert State().index.Keys == index.Keys;
    }

    method RemoveEntry(key: Key) returns (entry: Entry)
      requires Valid()
      modifies this`indexFile, this`aliveValuesCnt
      ensures Valid()
      ensures State() == ShardModel.RemoveEntry(old(State()), key)
      ensures entry == Entry(key, Lookup(State().index, key)) && (entry.ptr.IsEmpty() || entry.ptr.IsDeleted())
      ensures FileMarked(old(State()).index, SlotsOf(old(indexFile)), entry)
    {
      var marked;
      entry, marked := MarkDeletedOnDisk(key);
      if marked {
        DecrementAliveValuesCnt();
      }
    }

    /** A delayed removal: the counter went down when the removal was asked for. */
    method PushRemoveEntry(key: Key) returns (entry: Entry)
      requires Valid()
      modifies this`indexFile
      ensures Valid()
      ensures State() == MarkDeleted(old(State()), key)
      ensures entry == Entry(key, Lookup(State().index, key))
      ensures FileMarked(old(State()).index, SlotsOf(old(indexFile)), entry)
    {
      var marked;
      entry, marked := MarkDeletedOnDisk(key);
    }
  }
}
