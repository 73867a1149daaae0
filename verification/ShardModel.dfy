/** A shard as a value: its index as a map, its values file as a sequence of slots, and its
    counter of live values. The functions say what each method of src/Shard.cpp does to it. */
module ShardModel {
  import opened KeyValueTypes

  datatype ShardState = ShardState(index: map<Key, Ptr>, values: seq<Value>, alive: nat)

  const EMPTY_SHARD := ShardState(map[], [], 0)

  /** The pointer a table returns for a key. */
  function Lookup(m: map<Key, Ptr>, key: Key): Ptr {
    if key in m then m[key] else EMPTY_PTR
  }

  /** Every indexed key has a value slot of its own, every slot has a key, and there are few
      enough of them for a pointer and for the byte-wide counters. */
  ghost predicate ShardInv(s: ShardState) {
    && |s.index| == |s.values| <= SHARD_CAPACITY
    && s.alive < 256
    && (forall k :: k in s.index ==> Indexed(s.index[k], |s.values|))
    && (forall k, l :: k in s.index && l in s.index && k != l ==> s.index[k].GetIndex() != s.index[l].GetIndex())
  }

  predicate Indexed(ptr: Ptr, slots: nat) {
    (ptr.IsPresent() || ptr.IsDeleted()) && ptr.GetIndex() < slots
  }

  /** The value a key has as far as the shard alone can tell. */
  function Stored(s: ShardState, key: Key): Option<Value> {
    var ptr := Lookup(s.index, key);
    if ptr.IsPresent() && ptr.GetIndex() < |s.values| then Some(s.values[ptr.GetIndex()]) else None
  }

  function Increment(alive: nat): nat { (alive + 1) % 256 }

  function Decrement(alive: nat): nat { (alive + 255) % 256 }

  /** The counter is one byte: each step undoes the other, and only 255 and 0 wrap. */
  lemma CounterIsByte(alive: nat)
    requires alive < 256
    ensures Increment(alive) == if alive == 255 then 0 else alive + 1
    ensures Decrement(alive) == if alive == 0 then 255 else alive - 1
    ensures Decrement(Increment(alive)) == alive == Increment(Decrement(alive))
  {
  }

  function WriteDirectly(s: ShardState, ptr: Ptr, value: Value): ShardState
    requires ptr.GetIndex() < |s.values|
  {
    s.(values := s.values[ptr.GetIndex() := value])
  }

  /** A new key overfills the index; the program ends. */
  predicate Overflows(s: ShardState, key: Key) {
    key !in s.index && |s.index| >= SHARD_CAPACITY
  }

  function WriteValue(s: ShardState, key: Key, value: Value): (ShardState, Ptr)
    requires ShardInv(s) && !Overflows(s, key)
  {
    var ptr := Lookup(s.index, key);
    if ptr.IsPresent() then
      (WriteDirectly(s, ptr, value), ptr)
    else if ptr.IsDeleted() then
      var revived := ptr.SetValuePresent(true);
      (WriteDirectly(s, ptr, value).(index := s.index[key := revived], alive := Increment(s.alive)), revived)
    else
      (AppendNew(s, key, value), NextPtr(s))
  }

  /** The pointer to the slot the next new value gets. */
  function NextPtr(s: ShardState): Ptr
    requires |s.values| <= MAX_PTR_INDEX
  {
    Ptr.AtOffset(|s.values| * VALUE_SIZE, true)
  }

  function AppendNew(s: ShardState, key: Key, value: Value): ShardState
    requires |s.values| <= MAX_PTR_INDEX
  {
    ShardState(s.index[key := NextPtr(s)], s.values + [value], Increment(s.alive))
  }

  /** Marks the key deleted in the index. */
  function MarkDeleted(s: ShardState, key: Key): ShardState {
    var ptr := Lookup(s.index, key);
    if ptr.IsPresent() then s.(index := s.index[key := ptr.SetValuePresent(false)]) else s
  }

  function RemoveEntry(s: ShardState, key: Key): ShardState {
    if Lookup(s.index, key).IsPresent() then MarkDeleted(s, key).(alive := Decrement(s.alive)) else s
  }

  /** More than half of the values file is dead. */
  predicate RebuildRequired(s: ShardState) {
    |s.values| % 256 > 2 * s.alive
  }

  /** The two shards agree on every key but one: its pointer and the slot it points at. */
  ghost predicate AgreeExceptAt(s: ShardState, t: ShardState, key: Key)
    requires ShardInv(s) && ShardInv(t)
  {
    && (forall k :: k != key ==> (k in s.index <==> k in t.index))
    && (forall k :: k != key && k in s.index ==>
          t.index[k] == s.index[k] && t.values[s.index[k].GetIndex()] == s.values[s.index[k].GetIndex()])
  }

  /** A write through the pointer of one key changes that key's slot and no other key's. */
  lemma WriteDirectlyIsLocal(s: ShardState, key: Key, value: Value)
    requires ShardInv(s) && key in s.index
    ensures var after := WriteDirectly(s, s.index[key], value);
            && ShardInv(after) && AgreeExceptAt(s, after, key)
            && after.index == s.index && after.alive == s.alive
            && after.values[s.index[key].GetIndex()] == value
  {
  }

  lemma ReflagIsLocal(s: ShardState, key: Key, isPresent: bool)
    requires ShardInv(s) && key in s.index
    ensures var after := s.(index := s.index[key := s.index[key].SetValuePresent(isPresent)]);
            && ShardInv(after) && AgreeExceptAt(s, after, key)
            && after.index[key].GetType() == (if isPresent then PRESENT else DELETED)
            && after.index[key].GetIndex() == s.index[key].GetIndex()
  {
    var flagged := s.index[key].SetValuePresent(isPresent);
    assert Indexed(flagged, |s.values|) && flagged.GetIndex() == s.index[key].GetIndex();
    var index := s.index[key := flagged];
    assert index.Keys == s.index.Keys && |index| == |s.index|;
    assert forall k :: k in index ==> index[k].GetIndex() == s.index[k].GetIndex();
  }

  lemma AppendNewIsLocal(s: ShardState, key: Key, value: Value)
    requires ShardInv(s) && key !in s.index && |s.index| < SHARD_CAPACITY
    ensures NextPtr(s).IsPresent() && NextPtr(s).GetIndex() == |s.values|
    ensures var after := AppendNew(s, key, value);
            ShardInv(after) && AgreeExceptAt(s, after, key)
  {
    AtOffsetReadsBack(|s.values|, true);
  }

  lemma WriteValueIsLocal(s: ShardState, key: Key, value: Value)
    requires ShardInv(s) && !Overflows(s, key)
    ensures var (after, ptr) := WriteValue(s, key, value);
            && ShardInv(after) && AgreeExceptAt(s, after, key)
            && key in after.index && after.index[key] == ptr && ptr.IsPresent()
            && after.values[ptr.GetIndex()] == value
            && after.alive == if Lookup(s.index, key).IsPresent() then s.alive else Increment(s.alive)
  {
    var ptr := Lookup(s.index, key);
    if key in s.index {
      WriteDirectlyIsLocal(s, key, value);
      ReflagIsLocal(WriteDirectly(s, ptr, value), key, true);
    } else {
      AppendNewIsLocal(s, key, value);
    }
  }

  lemma MarkDeletedIsLocal(s: ShardState, key: Key)
    requires ShardInv(s)
    ensures var after := MarkDeleted(s, key);
            && ShardInv(after) && AgreeExceptAt(s, after, key)
            && after.values == s.values && after.alive == s.alive
            && (key in s.index <==> key in after.index)
            && !Lookup(after.index, key).IsPresent()
            && (key in s.index ==>
                  after.index[key].IsDeleted() && after.index[key].GetIndex() == s.index[key].GetIndex())
  {
    if key in s.index {
      ReflagIsLocal(s, key, false);
    }
  }
}
