/** The cache of pointers kept in memory (src/CacheMap.cpp): linear probing without
    tombstones, which makes room by dropping an entry picked at random. */
module CacheMap {
  import opened KeyValueTypes
  import opened LinearProbing
  import opened CacheRow

  /** The search of `get` never looks at the home slot for a free one, so it fails when no
      other slot stops it. */
  ghost predicate SearchFails(hash: Hasher, slots: seq<Entry>, key: Key)
    requires |slots| > 0
  {
    var home := Home(hash, key, |slots|);
    && slots[home].key != key
    && forall i :: 0 <= i < |slots| && i != home ==> !slots[i].IsFree() && slots[i].key != key
  }

  /** The home slot, if it carries the key, and otherwise the first slot after it that is free or
      carries the key. */
  ghost predicate FoundAt(hash: Hasher, slots: seq<Entry>, key: Key, slot: nat)
    requires |slots| > 0
  {
    var home := Home(hash, key, |slots|);
    if slots[home].key == key then slot == home
    else
      && slot < |slots| && slot != home && (slots[slot].key == key || slots[slot].IsFree())
      && forall j {:trigger InArc(home, j, slot)} :: 0 <= j < |slots| && j != home && InArc(home, j, slot) ==>
           slots[j].key != key && !slots[j].IsFree()
  }

  ghost function NumberedKey(n: nat): Key
    requires n < 256
  {
    Key([n] + seq(KEY_SIZE - 1, _ => 0))
  }

  /** The assertion in `get` can fail at the load the cache allows exactly below seven slots. */
  lemma GetNeedsSevenSlots(size: nat)
    requires size > 0
    ensures size < 7 <==>
            exists hash, slots, key :: RowOk(hash, slots) && |slots| == size && SearchFails(hash, slots, key)
  {
    if size < 7 {
      var hash: Hasher := (key: Key, seed) => key.bytes[0];
      var slots := seq(size, i requires 0 <= i < size =>
                               if i == 0 then FREE_ENTRY else Entry(NumberedKey(i), NONEXISTENT_PTR));
      forall i | 0 < i < size
        ensures Home(hash, slots[i].key, size) == i
      {
        assert NumberedKey(i).bytes[0] == i;
      }
      UsedAfterUpdate(slots, 0, Entry(DEFAULT_KEY, NONEXISTENT_PTR));
      assert NumberedKey(size).bytes[0] == size;
      assert Home(hash, NumberedKey(size), size) == 0;
      assert SearchFails(hash, slots, NumberedKey(size));
    } else {
      forall hash, slots, key | RowOk(hash, slots) && |slots| == size
        ensures !SearchFails(hash, slots, key)
      {
        var other := SomeOtherFree(slots, Home(hash, key, size));
      }
    }
  }

  /** A row the cache allows can be full exactly below four slots; the search for a victim then
      fails. */
  lemma RowsFillBelowFour(size: nat)
    requires size > 0
    ensures size < 4 <==> exists hash, slots :: RowOk(hash, slots) && |slots| == size && Used(slots) == size
  {
    if size < 4 {
      var hash: Hasher := (key: Key, seed) => key.bytes[0];
      var slots := seq(size, i requires 0 <= i < size => Entry(NumberedKey(i), NONEXISTENT_PTR));
      forall i | 0 <= i < size
        ensures Home(hash, slots[i].key, size) == i
      {
        assert NumberedKey(i).bytes[0] == i;
      }
      AllUsed(slots);
      assert RowOk(hash, slots);
    }
  }

  class CacheMap {
    const hash: Hasher
    const data: array<Entry>
    const random: nat -> nat  // the numbers the random generator gives, one after the other
    var draws: nat  // how many of them were drawn
    var usedSize: nat

    ghost predicate Valid()
      reads this, data
    {
      RowOk(hash, data[..]) && usedSize == Used(data[..])
    }

    ghost function Map(): map<Key, Ptr>
      reads this, data
    {
      Contents(data[..])
    }

    constructor (hash: Hasher, size: nat, random: nat -> nat)
      requires size > 0
      ensures Valid() && fresh(data)
      ensures this.hash == hash && data.Length == size && this.random == random
      ensures Map() == map[] && usedSize == 0
      ensures forall j :: 0 <= j < data.Length ==> data[j] == FREE_ENTRY
    {
      this.hash, this.random, draws := hash, random, 0;
      data := new Entry[size](_ => FREE_ENTRY);
      usedSize := 0;
      new;
      AllFree(data[..]);
      ContentsIsTheOne(data[..], map[]);
    }

    /** `get` returns a reference to a slot's pointer; here it is the number of the slot.
        `ok` says whether the assertion of the search holds. */
    method Get(key: Key) returns (ok: bool, slot: nat)
      requires Valid()
      ensures slot < data.Length
      ensures ok ==> (key in Map() <==> !data[slot].IsFree())
      ensures ok && key in Map() ==> data[slot].key == key && data[slot].ptr == Map()[key]
      ensures !ok <==> SearchFails(hash, data[..], key)
      ensures ok ==> FoundAt(hash, data[..], key, slot)
      ensures data.Length >= 7 ==> ok
    {
      ok, slot := Search(hash, data[..], key);
      if data.Length >= 7 {
        ghost var other := SomeOtherFree(data[..], Home(hash, key, data.Length));
      }
    }

    static method Search(hash: Hasher, slots: seq<Entry>, key: Key) returns (ok: bool, slot: nat)
      requires WellProbed(hash, slots)
      ensures slot < |slots|
      ensures ok ==> (key in Contents(slots) <==> !slots[slot].IsFree())
      ensures ok && key in Contents(slots) ==> slots[slot].key == key && slots[slot].ptr == Contents(slots)[key]
      ensures !ok <==> SearchFails(hash, slots, key)
      ensures ok ==> FoundAt(hash, slots, key, slot)
    {
      ContentsRepresents(slots);
      var keyIndex := Home(hash, key, |slots|);
      if slots[keyIndex].key == key {
        MatchDecides(hash, slots, key, keyIndex);
        return true, keyIndex;
      }
      slot := FindNextByPredicate(slots, keyIndex, (e: Entry) => e.key == key || e.IsFree());
      ok := slot != keyIndex;
      if slots[keyIndex].IsFree() {
        StopDecides(hash, slots, key, keyIndex);
      } else if ok {
        StopDecides(hash, slots, key, slot);
      }
    }

    /** The reference `get` returned is written through when a removal is marked or undone. Of
        the numbers a pointer never has, marking 127 deleted would make the slot a free one. */
    method SetValuePresent(slot: nat, isPresent: bool)
      requires Valid() && slot < data.Length
      requires data[slot].ptr.IsPresent() || data[slot].ptr.IsDeleted()
      modifies data
      ensures data[..] == old(data[..])[slot := old(data[slot]).(ptr := old(data[slot].ptr).SetValuePresent(isPresent))]
      ensures !data[slot].IsFree() ==>
                Valid() && Map() == old(Map())[old(data[slot].key) := old(data[slot].ptr).SetValuePresent(isPresent)]
    {
      ghost var before := data[..];
      var e := data[slot];
      data[slot] := Entry(e.key, e.ptr.SetValuePresent(isPresent));
      assert data[..] == before[slot := data[slot]];
      if !data[slot].IsFree() {
        UsedAfterUpdate(before, slot, data[slot]);
        ContentsRepresents(before);
        StoredContents(before, data[slot], slot);
      }
    }

    /** The slot the random choice leads to; `ok` says whether the assertion of the search
        holds. */
    method PickVictim(randomIndex: nat) returns (ok: bool, foundIndex: nat)
      requires Valid() && randomIndex < data.Length && 0 < usedSize
      ensures ok <==> usedSize < data.Length
      ensures ok ==> LeadsTo(data[..], randomIndex, foundIndex)
    {
      if usedSize < data.Length {
        ghost var free := SomeFree(data[..]);
      } else {
        FullHasNoneFree(data[..]);
      }
      if !data[randomIndex].IsFree() {
        foundIndex := FindNextByPredicate(data[..], randomIndex, (e: Entry) => e.IsFree());
        ok := foundIndex != randomIndex;
        ghost var firstFree := foundIndex;
        foundIndex := if foundIndex == 0 then data.Length - 1 else foundIndex - 1;
        if ok {
          ForwardLeads(data[..], randomIndex, firstFree, foundIndex);
        }
      } else {
        foundIndex := WalkBack(randomIndex);
        ok := true;
      }
    }

    /** The backward loop from a free slot: the nearest taken one before it. */
    method WalkBack(randomIndex: nat) returns (foundIndex: nat)
      requires Valid() && randomIndex < data.Length && 0 < usedSize && data[randomIndex].IsFree()
      ensures LeadsTo(data[..], randomIndex, foundIndex)
    {
      ghost var used := SomeUsed(data[..]);
      foundIndex := randomIndex;
      var i := if randomIndex == 0 then data.Length - 1 else randomIndex - 1;
      while i != randomIndex
        invariant 0 <= i < data.Length && i != randomIndex && foundIndex == randomIndex
        invariant data[Next(data.Length, i)].IsFree()
        invariant AllAre(data[..], Next(data.Length, i), randomIndex, true)
        invariant used == i || InArc(randomIndex, used, i)  // the walk has not passed it
        decreases if i <= randomIndex then i + data.Length - randomIndex else i - randomIndex
      {
        if !data[i].IsFree() {
          foundIndex := i;
          break;
        }
        FreeRunGrows(data[..], i, randomIndex);
        if i == 0 {
          i := data.Length;
        }
        i := i - 1;
      }
    }

    /** `ok` says whether the assertion of the victim's search holds; `drop` is the slot that
        was freed, the one to which the next random number leads. */
    method PutOrDisplace(entry: Entry) returns (ok: bool, displaced: Option<Entry>, ghost drop: Option<nat>)
      requires Valid()
      modifies this, data
      ensures ok <==> old(usedSize) < data.Length
      ensures data.Length >= 4 ==> ok
      ensures ok ==> ValidDrop(old(data[..]), drop) && data[..] == RowPut(hash, old(data[..]), entry, drop)
      ensures ok && drop.Some? ==> LeadsTo(old(data[..]), random(old(draws)) % data.Length, drop.value)
      ensures draws == old(draws) + if 3 * old(usedSize) > 2 * data.Length then 1 else 0
      ensures ok ==> displaced == if drop.Some? then Some(old(data[..])[drop.value]) else None
      ensures ok ==> (displaced.Some? <==> 3 * old(usedSize) > 2 * data.Length)
      ensures ok ==> (Valid() <==> !entry.IsFree())
      ensures ok ==> usedSize == Used(data[..]) + if entry.IsFree() then 1 else 0
      ensures ok && !entry.IsFree() ==>
                Map() == (if displaced.Some? then old(Map()) - {displaced.value.key} else old(Map()))
                           [entry.key := entry.ptr]
    {
      ghost var before := data[..];
      displaced, drop := None, None;
      if 3 * usedSize > 2 * data.Length {
        var foundIndex;
        var randomIndex := random(draws) % data.Length;
        draws := draws + 1;
        ok, foundIndex := PickVictim(randomIndex);
        if !ok {
          return;
        }
        displaced, drop := Some(data[foundIndex]), Some(foundIndex);
        Free(foundIndex);
      }
      assert data[..] == Freed(before, drop);
      if !entry.IsFree() {
        RowPutIsRight(hash, before, entry, drop);
      }
      Store(entry);
      ok := true;
    }

    /** The second half of a put: the entry goes where the search for its key stops. No caller
        stores an entry that is free; it would make the count one too high. */
    method Store(entry: Entry)
      requires WellProbed(hash, data[..]) && usedSize == Used(data[..]) < data.Length
      requires LoadKept(usedSize + 1, data.Length)
      modifies this, data
      ensures data[..] == old(data[..])[StopSlot(hash, old(data[..]), entry.key) := entry]
      ensures usedSize == Used(data[..]) + if entry.IsFree() then 1 else 0
      ensures !entry.IsFree() ==> Valid()
      ensures draws == old(draws)
    {
      ghost var before := data[..];
      var keyIndex := FindSlotFor(hash, data[..], entry.key);
      StopSlotIs(hash, before, entry.key, keyIndex);
      UsedAfterUpdate(before, keyIndex, entry);
      if !entry.IsFree() {
        StoreWhereStopped(hash, before, entry, keyIndex);
      }
      if data[keyIndex].IsFree() {
        usedSize := usedSize + 1;
      }
      data[keyIndex] := entry;
      assert data[..] == before[keyIndex := entry];
    }

    /** Frees the last slot of a cluster. */
    method Free(v: nat)
      requires Valid() && v < data.Length
      requires !data[v].IsFree() && data[Next(data.Length, v)].IsFree()
      modifies this, data
      ensures data[..] == old(data[..])[v := FREE_ENTRY]
      ensures WellProbed(hash, data[..]) && usedSize == old(usedSize) - 1 == Used(data[..])
      ensures draws == old(draws)
    {
      ghost var before := data[..];
      FreeLastOfCluster(hash, before, v);
      data[v] := FREE_ENTRY;
      usedSize := usedSize - 1;
      assert data[..] == before[v := FREE_ENTRY];
    }
  }
}
