/** Compaction of a shard as a value: what one pass over the index entries builds, given the
    cache with its delayed removals (src/ShardBuilder.cpp, lines 46 to 75). */
module RebuildModel {
  import opened KeyValueTypes
  import opened LinearProbing
  import opened ShardModel

  datatype Rebuilt = Rebuilt(index: map<Key, Ptr>, values: seq<Value>, updates: seq<Entry>)

  /** The entry's value goes into the new values file. */
  predicate Keeps(cached: Ptr, indexed: Ptr) {
    cached.IsPresent() || (cached.IsEmpty() && indexed.IsPresent())
  }

  /** The cached pointer has to be rewritten. */
  predicate Rewrites(cached: Ptr) {
    cached.IsPresent() || cached.IsDeleted()
  }

  predicate Readable(entries: seq<Entry>, slots: nat) {
    && |entries| <= SHARD_CAPACITY
    && forall i :: 0 <= i < |entries| ==> entries[i].ptr.GetIndex() < slots
  }

  /** The loop of the rebuild over the entries, one after the other. */
  function RebuildFrom(values: seq<Value>, cache: map<Key, Ptr>, entries: seq<Entry>): (r: Rebuilt)
    requires Readable(entries, |values|)
    ensures |r.values| <= |entries|
  {
    if entries == [] then Rebuilt(map[], [], [])
    else
      var last := |entries| - 1;
      Visit(values, cache, RebuildFrom(values, cache, entries[..last]), entries[last])
  }

  function Visit(values: seq<Value>, cache: map<Key, Ptr>, r: Rebuilt, e: Entry): Rebuilt
    requires |r.values| <= MAX_PTR_INDEX && e.ptr.GetIndex() < |values|
  {
    var newPtr := Ptr.AtOffset(|r.values| * VALUE_SIZE, true);
    var copied := Rebuilt(r.index[e.key := newPtr], r.values + [values[e.ptr.GetIndex()]], r.updates);
    match Lookup(cache, e.key).GetType()
    case DELETED => r.(updates := r.updates + [Entry(e.key, NONEXISTENT_PTR)])
    case NONEXISTENT => r
    case EMPTY => if e.ptr.IsPresent() then copied else r
    case PRESENT => copied.(updates := r.updates + [Entry(e.key, newPtr)])
  }

  /** What the visited part `m` of the index has become. */
  ghost predicate Carries(values: seq<Value>, cache: map<Key, Ptr>, m: map<Key, Ptr>, r: Rebuilt) {
    && CarriesIndex(values, cache, m, r)
    && CarriesUpdates(cache, m, r)
  }

  /** The kept keys, all present, own the new slots one each, and each slot holds the old value. */
  ghost predicate CarriesIndex(values: seq<Value>, cache: map<Key, Ptr>, m: map<Key, Ptr>, r: Rebuilt) {
    && (forall k :: k in r.index <==> k in m && Keeps(Lookup(cache, k), m[k]))
    && |r.index| == |r.values|
    && (forall k :: k in r.index ==> r.index[k].IsPresent() && r.index[k].GetIndex() < |r.values|)
    && (forall k, l :: k in r.index && l in r.index && k != l ==> r.index[k].GetIndex() != r.index[l].GetIndex())
    && (forall k :: k in r.index ==>
          m[k].GetIndex() < |values| && r.values[r.index[k].GetIndex()] == values[m[k].GetIndex()])
  }

  /** The updates are for the cached keys that are present or to be deleted, once each: the
      first get their new pointer, the others are known to be gone. */
  ghost predicate CarriesUpdates(cache: map<Key, Ptr>, m: map<Key, Ptr>, r: Rebuilt) {
    && Enumerates(r.updates, Contents(r.updates))
    && (forall k :: k in Contents(r.updates) <==> k in m && Rewrites(Lookup(cache, k)))
    && (forall k :: k in Contents(r.updates) ==>
          && (Lookup(cache, k).IsPresent() ==> k in r.index && Contents(r.updates)[k] == r.index[k])
          && (Lookup(cache, k).IsDeleted() ==> Contents(r.updates)[k] == NONEXISTENT_PTR))
  }

  lemma {:induction false} RebuildCarries(values: seq<Value>, cache: map<Key, Ptr>, entries: seq<Entry>)
    requires Readable(entries, |values|) && DistinctKeys(entries)
    requires forall i :: 0 <= i < |entries| ==> !entries[i].IsFree()
    ensures Carries(values, cache, Contents(entries), RebuildFrom(values, cache, entries))
  {
    if entries != [] {
      var last := |entries| - 1;
      RebuildCarries(values, cache, entries[..last]);
      LastIsNew(entries);
      var m, r, e := Contents(entries[..last]), RebuildFrom(values, cache, entries[..last]), entries[last];
      VisitIndex(values, cache, m, r, e);
      VisitUpdates(values, cache, m, r, e);
    }
  }

  lemma VisitIndex(values: seq<Value>, cache: map<Key, Ptr>, m: map<Key, Ptr>, r: Rebuilt, e: Entry)
    requires |r.values| < SHARD_CAPACITY && e.ptr.GetIndex() < |values| && e.key !in m
    requires CarriesIndex(values, cache, m, r)
    ensures CarriesIndex(values, cache, m[e.key := e.ptr], Visit(values, cache, r, e))
  {
    AtOffsetReadsBack(|r.values|, true);
    if Keeps(Lookup(cache, e.key), e.ptr) {
      CopyCarries(values, cache, m, r, e, Visit(values, cache, r, e));
    } else {
      SkipCarries(values, cache, m, r, e, Visit(values, cache, r, e));
    }
  }

  lemma VisitUpdates(values: seq<Value>, cache: map<Key, Ptr>, m: map<Key, Ptr>, r: Rebuilt, e: Entry)
    requires |r.values| < SHARD_CAPACITY && e.ptr.GetIndex() < |values| && e.key !in m
    requires CarriesUpdates(cache, m, r) && e.key !in r.index
    ensures CarriesUpdates(cache, m[e.key := e.ptr], Visit(values, cache, r, e))
  {
    AtOffsetReadsBack(|r.values|, true);
    if Rewrites(Lookup(cache, e.key)) {
      RewriteCarries(cache, m, r, e, Visit(values, cache, r, e));
    } else {
      NoRewriteCarries(cache, m, r, e, Visit(values, cache, r, e));
    }
  }

  lemma CopyCarries(values: seq<Value>, cache: map<Key, Ptr>, m: map<Key, Ptr>, r: Rebuilt, e: Entry, after: Rebuilt)
    requires e.ptr.GetIndex() < |values| && e.key !in m && CarriesIndex(values, cache, m, r)
    requires Keeps(Lookup(cache, e.key), e.ptr)
    requires after.values == r.values + [values[e.ptr.GetIndex()]]
    requires e.key in after.index && after.index == r.index[e.key := after.index[e.key]]
    requires after.index[e.key].IsPresent() && after.index[e.key].GetIndex() == |r.values|
    ensures CarriesIndex(values, cache, m[e.key := e.ptr], after)
  {
    assert e.key !in r.index && |after.index| == |r.index| + 1;
    forall k
      ensures k in after.index <==> k in m[e.key := e.ptr] && Keeps(Lookup(cache, k), m[e.key := e.ptr][k])
    {
      assert k != e.key ==> (k in after.index <==> k in r.index);
    }
    forall k | k in after.index
      ensures after.index[k].IsPresent() && after.index[k].GetIndex() < |after.values|
      ensures m[e.key := e.ptr][k].GetIndex() < |values|
      ensures after.values[after.index[k].GetIndex()] == values[m[e.key := e.ptr][k].GetIndex()]
    {
      CopyCarriesAt(values, cache, m, r, e, after, k);
    }
    CopiesApart(values, cache, m, r, e, after);
  }

  lemma CopyCarriesAt(values: seq<Value>, cache: map<Key, Ptr>, m: map<Key, Ptr>, r: Rebuilt, e: Entry,
                      after: Rebuilt, k: Key)
    requires e.ptr.GetIndex() < |values| && e.key !in m && CarriesIndex(values, cache, m, r)
    requires Keeps(Lookup(cache, e.key), e.ptr)
    requires after.values == r.values + [values[e.ptr.GetIndex()]]
    requires e.key in after.index && after.index == r.index[e.key := after.index[e.key]]
    requires after.index[e.key].IsPresent() && after.index[e.key].GetIndex() == |r.values|
    requires k in after.index
    ensures after.index[k].IsPresent() && after.index[k].GetIndex() < |after.values|
    ensures k in m[e.key := e.ptr] && m[e.key := e.ptr][k].GetIndex() < |values|
    ensures after.values[after.index[k].GetIndex()] == values[m[e.key := e.ptr][k].GetIndex()]
  {
    if k != e.key {
      assert k in r.index && after.index[k] == r.index[k];
    }
  }

  lemma CopiesApart(values: seq<Value>, cache: map<Key, Ptr>, m: map<Key, Ptr>, r: Rebuilt, e: Entry, after: Rebuilt)
    requires e.ptr.GetIndex() < |values| && e.key !in m && CarriesIndex(values, cache, m, r)
    requires Keeps(Lookup(cache, e.key), e.ptr)
    requires after.values == r.values + [values[e.ptr.GetIndex()]]
    requires e.key in after.index && after.index == r.index[e.key := after.index[e.key]]
    requires after.index[e.key].IsPresent() && after.index[e.key].GetIndex() == |r.values|
    ensures forall k, l :: k in after.index && l in after.index && k != l ==>
              after.index[k].GetIndex() != after.index[l].GetIndex()
  {
    forall k | k in after.index && k != e.key
      ensures k in r.index && after.index[k] == r.index[k] && r.index[k].GetIndex() < |r.values|
    {
    }
  }

  lemma SkipCarries(values: seq<Value>, cache: map<Key, Ptr>, m: map<Key, Ptr>, r: Rebuilt, e: Entry, after: Rebuilt)
    requires e.key !in m && CarriesIndex(values, cache, m, r)
    requires !Keeps(Lookup(cache, e.key), e.ptr)
    requires after.values == r.values && after.index == r.index
    ensures CarriesIndex(values, cache, m[e.key := e.ptr], after)
  {
    assert e.key !in r.index;
  }

  lemma RewriteCarries(cache: map<Key, Ptr>, m: map<Key, Ptr>, r: Rebuilt, e: Entry, after: Rebuilt)
    requires e.key !in m && CarriesUpdates(cache, m, r) && e.key !in r.index
    requires Rewrites(Lookup(cache, e.key))
    requires Lookup(cache, e.key).IsDeleted() ==>
               after.index == r.index && after.updates == r.updates + [Entry(e.key, NONEXISTENT_PTR)]
    requires Lookup(cache, e.key).IsPresent() ==>
               && e.key in after.index && after.index[e.key].IsPresent()
               && after.index == r.index[e.key := after.index[e.key]]
               && after.updates == r.updates + [Entry(e.key, after.index[e.key])]
    ensures CarriesUpdates(cache, m[e.key := e.ptr], after)
  {
    var update := after.updates[|r.updates|];
    EnumeratesOneMore(r.updates, Contents(r.updates), update);
    assert Contents(after.updates) == Contents(r.updates)[e.key := update.ptr];
  }

  lemma NoRewriteCarries(cache: map<Key, Ptr>, m: map<Key, Ptr>, r: Rebuilt, e: Entry, after: Rebuilt)
    requires e.key !in m && CarriesUpdates(cache, m, r) && e.key !in r.index
    requires !Rewrites(Lookup(cache, e.key))
    requires after.updates == r.updates
    requires forall k :: k in r.index ==> k in after.index && after.index[k] == r.index[k]
    ensures CarriesUpdates(cache, m[e.key := e.ptr], after)
  {
    assert e.key !in Contents(r.updates);
  }

  /** The new slots are used up: each belongs to a key of the new index. */
  lemma {:induction false} EverySlotOwned(values: seq<Value>, cache: map<Key, Ptr>, entries: seq<Entry>, slot: nat)
    returns (k: Key)
    requires Readable(entries, |values|) && DistinctKeys(entries)
    requires forall i :: 0 <= i < |entries| ==> !entries[i].IsFree()
    requires slot < |RebuildFrom(values, cache, entries).values|
    ensures k in RebuildFrom(values, cache, entries).index
    ensures RebuildFrom(values, cache, entries).index[k].GetIndex() == slot
  {
    var last := |entries| - 1;
    var r := RebuildFrom(values, cache, entries[..last]);
    AtOffsetReadsBack(|r.values|, true);
    if slot == |r.values| {
      k := entries[last].key;
    } else {
      k := EverySlotOwned(values, cache, entries[..last], slot);
      RebuildCarries(values, cache, entries[..last]);
      LastIsNew(entries);
    }
  }

  // ----- The order of the new slots and of the updates -----

  function KeptCount(cache: map<Key, Ptr>, entries: seq<Entry>): nat {
    if entries == [] then 0
    else
      var last := entries[|entries| - 1];
      KeptCount(cache, entries[..|entries| - 1]) + if Keeps(Lookup(cache, last.key), last.ptr) then 1 else 0
  }

  function RewriteCount(cache: map<Key, Ptr>, entries: seq<Entry>): nat {
    if entries == [] then 0
    else
      RewriteCount(cache, entries[..|entries| - 1])
      + if Rewrites(Lookup(cache, entries[|entries| - 1].key)) then 1 else 0
  }

  lemma {:induction false} RebuildCounts(values: seq<Value>, cache: map<Key, Ptr>, entries: seq<Entry>)
    requires Readable(entries, |values|)
    ensures var r := RebuildFrom(values, cache, entries);
            |r.values| == KeptCount(cache, entries) && |r.updates| == RewriteCount(cache, entries)
  {
    if entries != [] {
      RebuildCounts(values, cache, entries[..|entries| - 1]);
    }
  }

  /** The new slots are given out, and the updates listed, in the order of the entries. */
  lemma {:induction false} RebuildKeepsOrder(values: seq<Value>, cache: map<Key, Ptr>, entries: seq<Entry>, i: nat)
    requires Readable(entries, |values|) && DistinctKeys(entries) && i < |entries|
    requires forall j :: 0 <= j < |entries| ==> !entries[j].IsFree()
    ensures var r, key := RebuildFrom(values, cache, entries), entries[i].key;
            && (Keeps(Lookup(cache, key), entries[i].ptr) ==>
                  key in r.index && r.index[key].GetIndex() == KeptCount(cache, entries[..i]))
            && (Rewrites(Lookup(cache, key)) ==>
                  var n := RewriteCount(cache, entries[..i]); n < |r.updates| && r.updates[n].key == key)
  {
    var last := |entries| - 1;
    var r := RebuildFrom(values, cache, entries[..last]);
    RebuildCounts(values, cache, entries[..last]);
    if i < last {
      RebuildKeepsOrder(values, cache, entries[..last], i);
      assert entries[..last][..i] == entries[..i];
      VisitExtends(values, cache, r, entries[last], entries[i].key);
    } else {
      VisitAppends(values, cache, r, entries[last]);
    }
  }

  lemma VisitExtends(values: seq<Value>, cache: map<Key, Ptr>, r: Rebuilt, e: Entry, key: Key)
    requires |r.values| <= MAX_PTR_INDEX && e.ptr.GetIndex() < |values| && key != e.key
    ensures var after := Visit(values, cache, r, e);
            && (key in r.index ==> key in after.index && after.index[key] == r.index[key])
            && r.updates <= after.updates
  {
  }

  lemma VisitAppends(values: seq<Value>, cache: map<Key, Ptr>, r: Rebuilt, e: Entry)
    requires |r.values| <= MAX_PTR_INDEX && e.ptr.GetIndex() < |values|
    ensures var after, cached := Visit(values, cache, r, e), Lookup(cache, e.key);
            && (Keeps(cached, e.ptr) ==> e.key in after.index && after.index[e.key].GetIndex() == |r.values|)
            && (Rewrites(cached) ==> |after.updates| == |r.updates| + 1 && after.updates[|r.updates|].key == e.key)
  {
    AtOffsetReadsBack(|r.values|, true);
  }
}
