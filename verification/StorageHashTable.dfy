/** The hash table that a shard keeps in its index file (src/StorageHashTable.cpp):
    linear probing, one doubling of the capacity, and the byte form of the table. */
module StorageHashTable {
  import opened KeyValueTypes
  import opened LinearProbing
  import opened TableBytes

  /** Keeping the load: an overloaded table is expanded before anyone looks at it again. */
  ghost predicate WithinLoad(used: nat, size: nat) {
    3 * used <= 2 * size
  }

  /** The row that entries make of an empty one of this size, put one after the other. */
  function Rehashed(hash: Hasher, size: nat, entries: seq<Entry>): (slots: seq<Entry>)
    requires size > 0
    ensures |slots| == size
  {
    if entries == [] then seq(size, _ => FREE_ENTRY)
    else WithEntry(hash, Rehashed(hash, size, entries[..|entries| - 1]), entries[|entries| - 1])
  }

  lemma RehashedOneMore(hash: Hasher, size: nat, entries: seq<Entry>, i: nat)
    requires size > 0 && i < |entries|
    ensures Rehashed(hash, size, entries[..i + 1]) == WithEntry(hash, Rehashed(hash, size, entries[..i]), entries[i])
  {
    assert entries[..i + 1][..i] == entries[..i];
  }

  /** The table after a put, slot by slot. */
  function TablePut(hash: Hasher, slots: seq<Entry>, e: Entry): (after: seq<Entry>)
    requires |slots| > 0
    ensures |after| > 0
  {
    var row := WithEntry(hash, slots, e);
    if 3 * Used(row) > 2 * |row| then Rehashed(hash, 2 * |row|, Entries(row)) else row
  }

  /** A put doubles the table exactly if its key is new and one more is over the load. */
  lemma TablePutGrows(hash: Hasher, slots: seq<Entry>, e: Entry)
    requires WellProbed(hash, slots) && WithinLoad(Used(slots), |slots|) && !e.IsFree()
    ensures |TablePut(hash, slots, e)|
            == if e.key !in Contents(slots) && 3 * (|Contents(slots)| + 1) > 2 * |slots| then 2 * |slots| else |slots|
  {
    StopExists(hash, slots, e.key);
    StoreWhereStopped(hash, slots, e, StopSlot(hash, slots, e.key));
    UsedIsSize(slots);
  }

  /** A put of a held key overwrites it where it lies. */
  lemma HeldPut(hash: Hasher, slots: seq<Entry>, e: Entry, p: nat)
    requires WellProbed(hash, slots) && WithinLoad(Used(slots), |slots|) && !e.IsFree()
    requires p < |slots| && !slots[p].IsFree() && slots[p].key == e.key
    ensures TablePut(hash, slots, e) == slots[p := e]
  {
    HeldIsFound(hash, slots, e.key, p);
    UsedAfterUpdate(slots, p, e);
  }

  class StorageHashTable {
    const hash: Hasher
    var data: seq<Entry>
    var usedSize: nat

    /** Everything but the load. */
    ghost predicate Consistent()
      reads this
    {
      WellProbed(hash, data) && usedSize == Used(data)
    }

    ghost predicate Valid()
      reads this
    {
      Consistent() && WithinLoad(usedSize, |data|)
    }

    ghost function Map(): map<Key, Ptr>
      reads this
    {
      Contents(data)
    }

    constructor (hash: Hasher, size: nat)
      requires size > 0
      ensures Valid() && Map() == map[]
      ensures this.hash == hash && |data| == size && usedSize == 0
      ensures forall i :: 0 <= i < size ==> data[i] == FREE_ENTRY
    {
      this.hash := hash;
      usedSize := 0;
      data := seq(size, _ => FREE_ENTRY);
      new;
      AllFree(data);
      ContentsIsTheOne(data, map[]);
    }

    /** A reference to the slot that carries the key, or the empty pointer. */
    method Get(key: Key) returns (slot: Option<nat>)
      requires Consistent()
      ensures key in Map() <==> slot.Some? && slot.value < |data| && !data[slot.value].IsFree()
      ensures slot.Some? ==> slot.value < |data| && data[slot.value].key == key
      ensures key in Map() ==> data[slot.value].ptr == Map()[key]
    {
      ContentsRepresents(data);
      var keyIndex := Home(hash, key, |data|);
      if data[keyIndex].key == key {
        MatchDecides(hash, data, key, keyIndex);
        return Some(keyIndex);
      }
      var newIndex := FindNextByPredicate(data, keyIndex, (e: Entry) => e.key == key);
      if newIndex == keyIndex {
        return None;
      }
      MatchDecides(hash, data, key, newIndex);
      return Some(newIndex);
    }

    /** The reference `get` returned is written through. */
    method SetValuePresent(slot: nat, isPresent: bool)
      requires Valid() && slot < |data|
      requires data[slot].ptr.IsPresent() || data[slot].ptr.IsDeleted()
      requires data[slot].ptr.GetIndex() <= MAX_PTR_INDEX
      modifies this
      ensures Valid()
      ensures data == old(data)[slot := Entry(old(data[slot].key), old(data[slot].ptr).SetValuePresent(isPresent))]
      ensures Map() == old(Map())[old(data[slot].key) := old(data[slot].ptr).SetValuePresent(isPresent)]
    {
      var e := data[slot].(ptr := data[slot].ptr.SetValuePresent(isPresent));
      ContentsRepresents(data);
      UsedAfterUpdate(data, slot, e);
      StoredContents(data, e, slot);
      data := data[slot := e];
    }

    /** Stores an entry. False when the table would have to be expanded past its maximal
        size: the exception leaves a noexcept function and ends the program. */
    method Put(entry: Entry) returns (ok: bool)
      requires Valid() && !entry.IsFree()
      modifies this
      ensures ok <==> !(Overloads(old(Map()), entry.key, |old(data)|) && 2 * |old(data)| > STORAGE_HASH_TABLE_MAX_SIZE)
      ensures ok ==> Valid() && Map() == old(Map())[entry.key := entry.ptr]
      ensures ok ==> data == TablePut(hash, old(data), entry)
      ensures ok ==> |data| == if Overloads(old(Map()), entry.key, |old(data)|) then 2 * |old(data)| else |old(data)|
      decreases STORAGE_HASH_TABLE_MAX_SIZE - |data|, 1
    {
      var keyIndex := FindSlotFor(hash, data, entry.key);
      StopSlotIs(hash, data, entry.key, keyIndex);
      StopDecides(hash, data, entry.key, keyIndex);
      StoreWhereStopped(hash, data, entry, keyIndex);
      UsedIsSize(data);
      if data[keyIndex].IsFree() {
        usedSize := usedSize + 1;
      }
      data := data[keyIndex := entry];
      ok := true;
      if 3 * usedSize > 2 * |data| {
        ok := Expand();
      }
    }

    /** Rehashes into a table of twice the size. None of the puts expands again. */
    method Expand() returns (ok: bool)
      requires Consistent() && 3 * usedSize <= 2 * |data| + 3
      modifies this
      ensures ok <==> 2 * |old(data)| <= STORAGE_HASH_TABLE_MAX_SIZE
      ensures ok ==> Valid() && Map() == old(Map()) && |data| == 2 * |old(data)|
      ensures ok ==> data == Rehashed(hash, 2 * |old(data)|, Entries(old(data)))
      decreases STORAGE_HASH_TABLE_MAX_SIZE - |data|, 0
    {
      var newSize := |data| * 2;
      if newSize > STORAGE_HASH_TABLE_MAX_SIZE {
        return false;
      }
      var oldData := GetEntries();
      ghost var m := Map();
      usedSize := 0;
      data := seq(newSize, _ => FREE_ENTRY);
      AllFree(data);
      ContentsIsTheOne(data, map[]);
      for i := 0 to |oldData|
        invariant Valid() && |data| == newSize
        invariant Map() == Contents(oldData[..i]) && data == Rehashed(hash, newSize, oldData[..i])
      {
        NewToEarlier(oldData, m, i);
        TablePutGrows(hash, data, oldData[i]);
        RehashedOneMore(hash, newSize, oldData, i);
        var stored := Put(oldData[i]);
      }
      assert oldData[..|oldData|] == oldData;
      ok := true;
    }

    method GetEntries() returns (result: seq<Entry>)
      requires Consistent()
      ensures result == Entries(data)
      ensures Enumerates(result, Map()) && |result| == usedSize
    {
      result := [];
      for i := 0 to |data|
        invariant result == Entries(data[..i])
      {
        assert data[..i + 1][..i] == data[..i];
        if !data[i].IsFree() {
          result := result + [data[i]];
        }
      }
      assert data[..|data|] == data;
      EntriesEnumerate(data);
      EntriesCount(data);
    }

    method SerializeToByteArray() returns (bytes: seq<Byte>)
      ensures bytes == Serialized(data, usedSize) && |bytes| == 17 * |data| + 8
      ensures usedSize < 0x1_0000_0000_0000_0000 ==> Layout(bytes, data, usedSize)
    {
      var result := new Byte[|data| * ENTRY_SIZE + COUNTER_SIZE](_ => 0);
      for i := 0 to |data|
        invariant result[..ENTRY_SIZE * i] == SlotsBytes(data[..i])
      {
        CopyEntry(result, ENTRY_SIZE * i, data[i]);
        SlotsBytesOneMore(data, i);
        assert result[..ENTRY_SIZE * (i + 1)] == result[..ENTRY_SIZE * i] + EntryBytes(data[i]);
      }
      assert data[..|data|] == data;
      Copy(result, ENTRY_SIZE * |data|, NumberBytes(usedSize, COUNTER_SIZE));
      bytes := result[..];
      assert bytes == result[..ENTRY_SIZE * |data|] + result[ENTRY_SIZE * |data|..];
      if usedSize < SIZE_LIMIT {
        WrittenAsLaidOut(data, usedSize);
      }
    }

    static method CopyEntry(to: array<Byte>, at: nat, e: Entry)
      requires at + ENTRY_SIZE <= to.Length
      modifies to
      ensures to[..at] == old(to[..at]) && to[at..at + ENTRY_SIZE] == EntryBytes(e)
    {
      Copy(to, at, e.key.bytes);
      ghost var key := to[..at + KEY_SIZE];
      assert key[..at] == to[..at] && key[at..] == e.key.bytes;
      Copy(to, at + KEY_SIZE, [e.ptr.raw]);
      assert to[..at] == key[..at] && to[at..at + KEY_SIZE] == key[at..];
      assert to[at..at + ENTRY_SIZE] == to[at..at + KEY_SIZE] + to[at + KEY_SIZE..at + ENTRY_SIZE];
    }

    /** Copies bytes into a buffer. */
    static method Copy(to: array<Byte>, at: nat, bytes: seq<Byte>)
      requires at + |bytes| <= to.Length
      modifies to
      ensures to[..at] == old(to[..at]) && to[at..at + |bytes|] == bytes
      ensures to[at + |bytes|..] == old(to[at + |bytes|..])
    {
      forall j | 0 <= j < |bytes| {
        to[at + j] := bytes[j];
      }
    }

    constructor Raw(hash: Hasher, data: seq<Entry>, usedSize: nat)
      ensures this.hash == hash && this.data == data && this.usedSize == usedSize
    {
      this.hash, this.data, this.usedSize := hash, data, usedSize;
    }

    /** The table in a byte array; none when its length cannot be that of a table. Below eight
        bytes the subtraction wraps round: then the remainder is wrong, or the table that long
        cannot be allocated. */
    static method Deserialize(hash: Hasher, bytes: seq<Byte>) returns (table: Option<StorageHashTable>)
      ensures table.None? <==> forall slots: nat :: |bytes| != 17 * slots + 8
      ensures table.Some? ==>
                && fresh(table.value) && table.value.hash == hash
                && table.value.data == SlotsOf(bytes)
                && table.value.usedSize == UsedOf(bytes)
                && Layout(bytes, table.value.data, table.value.usedSize)
    {
      WellFormedLengths(bytes);
      var withoutUsedSize := |bytes| - COUNTER_SIZE;
      if withoutUsedSize < 0 {
        withoutUsedSize := withoutUsedSize + SIZE_LIMIT;
      }
      if withoutUsedSize % ENTRY_SIZE != 0 {
        return None;
      }
      var dataSize := withoutUsedSize / ENTRY_SIZE;
      if dataSize > |bytes| {
        return None;
      }
      var data: seq<Entry> := [];
      for i := 0 to dataSize
        invariant data == SlotsOf(bytes)[..i]
      {
        data := data + [EntryAt(bytes, i)];
      }
      ReadAsLaidOut(bytes);
      var t := new StorageHashTable.Raw(hash, data, NumberOf(bytes[withoutUsedSize..]));
      table := Some(t);
    }
  }

  /** Storing a new key would take the table over its load. */
  ghost predicate Overloads(m: map<Key, Ptr>, key: Key, size: nat) {
    key !in m && !WithinLoad(|m| + 1, size)
  }
}
