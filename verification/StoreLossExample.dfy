/** What can follow on that store in a build without assertions: the rebuild forgets a removal,
    the removed value is read again, and the counter of its shard is wrong from then on, until
    it wraps. */
module StoreLossExample {
  import opened KeyValueTypes
  import opened LinearProbing
  import opened CacheRow
  import opened ShardModel
  import opened RebuildModel
  import opened StoreModel
  import opened StoreRebuild
  import opened StoreRuns
  import opened StoreRow
  import opened StoreStops
  import opened StoreEnabled
  import opened StoreExample

  // ----- The rows of the run -----

  /** The cache from the loss on: `present` is known to be gone, and what lies at the homes of
      `removed` and `live` changes. */
  function Row(cfg: Config, keys: Keys, x: Entry, y: Entry): (slots: seq<Entry>)
    requires cfg.cacheSize > 0
    ensures |slots| == cfg.cacheSize
  {
    var p, w, l := Home(cfg.hash, keys.present, cfg.cacheSize), Home(cfg.hash, keys.removed, cfg.cacheSize),
                   Home(cfg.hash, keys.live, cfg.cacheSize);
    Laid(cfg, keys.Entries())[p := Absent(keys.present)][w := x][l := y]
  }

  /** What the cache holds for a key known to be gone. */
  function Absent(key: Key): Entry {
    Entry(key, NONEXISTENT_PTR)
  }

  /** The stores of the run: what lies at the two homes, and the shard of `removed`. */
  function Later(cfg: Config, keys: Keys, shardNumber: nat, x: Entry, y: Entry, s: ShardState): RowStore
    requires cfg.cacheSize > 0 && shardNumber > 0
  {
    RowStore(Row(cfg, keys, x, y), Shards(cfg, keys, shardNumber, EMPTY_SHARD, s))
  }

  lemma HomesDiffer(cfg: Config, keys: Keys, shardNumber: nat)
    requires keys.Placed(cfg, shardNumber)
    ensures var p, w, l := Home(cfg.hash, keys.present, cfg.cacheSize), Home(cfg.hash, keys.removed, cfg.cacheSize),
                           Home(cfg.hash, keys.live, cfg.cacheSize);
            && p != w && p != l && l != w && Next(cfg.cacheSize, w) !in {p, w, l}
            && Laid(cfg, keys.Entries())[p] == Entry(keys.present, Ptr(0x80))
            && Laid(cfg, keys.Entries())[l] == Entry(keys.live, Ptr(0x80))
            && Laid(cfg, keys.Entries())[w] == Entry(keys.removed, Ptr(0x01))
            && Laid(cfg, keys.Entries())[Next(cfg.cacheSize, w)].IsFree()
            && Used(Laid(cfg, keys.Entries())) == |keys.All()|
  {
    var entries, all := keys.Entries(), keys.All();
    assert all[0] == keys.present && all[1] == keys.live && all[2] == keys.removed;
    EntriesAreHoused(cfg, keys, shardNumber);
    assert entries[0] == Entry(keys.present, Ptr(0x80));
    LaidAtHome(cfg, entries, 0);
    LiveIsLaid(cfg, keys, shardNumber);
    RemovedSlot(cfg, keys, shardNumber);
    LaidIsRow(cfg, entries);
  }

  lemma EntriesAreHoused(cfg: Config, keys: Keys, shardNumber: nat)
    requires keys.Placed(cfg, shardNumber)
    ensures Housed(cfg, keys.Entries())
  {
    PrefixIsHoused(cfg, keys, shardNumber, keys.Entries());
  }

  lemma RowUpdated(cfg: Config, keys: Keys, shardNumber: nat, x: Entry, y: Entry, e: Entry)
    requires keys.Placed(cfg, shardNumber)
    ensures Row(cfg, keys, x, y)[Home(cfg.hash, keys.removed, cfg.cacheSize) := e] == Row(cfg, keys, e, y)
    ensures Row(cfg, keys, x, y)[Home(cfg.hash, keys.live, cfg.cacheSize) := e] == Row(cfg, keys, x, e)
  {
    HomesDiffer(cfg, keys, shardNumber);
  }

  lemma RowUsed(cfg: Config, keys: Keys, shardNumber: nat, x: Entry, y: Entry)
    requires keys.Placed(cfg, shardNumber) && !y.IsFree()
    ensures Overloaded(Row(cfg, keys, x, y)) <==> !x.IsFree()
    ensures var w := Home(cfg.hash, keys.removed, cfg.cacheSize);
            Row(cfg, keys, x, y)[w] == x && Row(cfg, keys, x, y)[Next(cfg.cacheSize, w)].IsFree()
    ensures Row(cfg, keys, x, y)[Home(cfg.hash, keys.live, cfg.cacheSize)] == y
  {
    var laid := Laid(cfg, keys.Entries());
    var p, w, l := Home(cfg.hash, keys.present, cfg.cacheSize), Home(cfg.hash, keys.removed, cfg.cacheSize),
                   Home(cfg.hash, keys.live, cfg.cacheSize);
    HomesDiffer(cfg, keys, shardNumber);
    UsedAfterUpdate(laid, p, Absent(keys.present));
    UsedAfterUpdate(laid[p := Absent(keys.present)], w, x);
    UsedAfterUpdate(laid[p := Absent(keys.present)][w := x], l, y);
  }

  /** A key whose home is one of the two lies nowhere else. */
  lemma NotCached(cfg: Config, keys: Keys, shardNumber: nat, x: Entry, y: Entry, key: Key)
    requires keys.Placed(cfg, shardNumber) && DistinctKeys(Row(cfg, keys, x, y))
    requires Home(cfg.hash, key, cfg.cacheSize) in {Home(cfg.hash, keys.removed, cfg.cacheSize),
                                                     Home(cfg.hash, keys.live, cfg.cacheSize)}
    requires (x.IsFree() || x.key != key) && (y.IsFree() || y.key != key)
    ensures Lookup(Contents(Row(cfg, keys, x, y)), key).IsEmpty()
  {
    var slots, laid := Row(cfg, keys, x, y), Laid(cfg, keys.Entries());
    EntriesAreHoused(cfg, keys, shardNumber);
    HomesDiffer(cfg, keys, shardNumber);
    forall j | 0 <= j < |slots| && !slots[j].IsFree()
      ensures slots[j].key != key
    {
      LaidIsAtHome(cfg, keys.Entries(), j);
    }
    UnknownKey(slots, key);
  }

  lemma LaidIsAtHome(cfg: Config, entries: seq<Entry>, j: nat)
    requires cfg.cacheSize > 0 && Housed(cfg, entries) && j < cfg.cacheSize && !Laid(cfg, entries)[j].IsFree()
    ensures Home(cfg.hash, Laid(cfg, entries)[j].key, cfg.cacheSize) == j
  {
    LaidAt(cfg, entries, j);
  }

  // ----- The loss -----

  /** The rebuild of a shard whose one key was removed in the cache, when the slot `w` is drawn
      in its write-back. */
  lemma LoneRebuild(cfg: Config, rs: RowStore, i: nat, key: Key, v: Value, h: nat, w: nat)
    requires RowInv(cfg, rs) && !cfg.asserts && i < |rs.shards|
    requires rs.shards[i] == ShardState(map[key := Ptr(0x80)], [v], 0)
    requires h < |rs.slots| && rs.slots[h] == Entry(key, Ptr(0x00))
    requires Overloaded(rs.slots) && Droppable(rs.slots, w) && w != h
    ensures RowRebuild(cfg, rs, i, Draw(None, [Entry(key, Ptr(0x80))], [Some(w)]),
                       RowRunning(RowStore(rs.slots[w := FREE_ENTRY][h := Absent(key)], rs.shards[i := EMPTY_SHARD])))
  {
    LoneCompacted(cfg, rs, i, key, v, h);
    NothingKept([Absent(key)]);
    LoneWritten(cfg, rs.slots, Absent(key), h, w);
  }

  lemma LoneCompacted(cfg: Config, rs: RowStore, i: nat, key: Key, v: Value, h: nat)
    requires RowInv(cfg, rs) && i < |rs.shards| && rs.shards[i] == ShardState(map[key := Ptr(0x80)], [v], 0)
    requires h < |rs.slots| && rs.slots[h] == Entry(key, Ptr(0x00))
    ensures var entries := [Entry(key, Ptr(0x80))];
            && Enumerates(entries, rs.shards[i].index) && Readable(entries, |rs.shards[i].values|)
            && Compacted(Abs(rs), i, entries) == Rebuilt(map[], [], [Absent(key)])
  {
    LoneEntry(Entry(key, Ptr(0x80)));
    SlotIsKnown(rs.slots, h);
    LoneCompaction([v], Contents(rs.slots), Entry(key, Ptr(0x80)));
  }

  lemma LoneEntry(e: Entry)
    requires !e.IsFree()
    ensures Enumerates([e], map[e.key := e.ptr])
  {
    assert [e][..0] == [];
    EnumeratesOneMore([], map[], e);
    assert [] + [e] == [e];
    assert map[][e.key := e.ptr] == map[e.key := e.ptr];
  }

  /** The compaction of one entry whose removal is pending. */
  lemma LoneCompaction(values: seq<Value>, cache: map<Key, Ptr>, e: Entry)
    requires e.ptr.GetIndex() < |values| && Lookup(cache, e.key).IsDeleted()
    ensures Readable([e], |values|) && RebuildFrom(values, cache, [e]) == Rebuilt(map[], [], [Absent(e.key)])
  {
    assert [e][..0] == [];
  }

  lemma NothingKept(updates: seq<Entry>)
    ensures RebuiltShard(Rebuilt(map[], [], updates)) == EMPTY_SHARD
  {
  }

  /** A write-back of one held key that frees another's slot. */
  lemma LoneWritten(cfg: Config, slots: seq<Entry>, e: Entry, h: nat, w: nat)
    requires WellProbed(cfg.hash, slots) && !cfg.asserts && h < |slots| && !slots[h].IsFree() && slots[h].key == e.key
    requires Overloaded(slots) && Droppable(slots, w) && w != h
    ensures RowWriteBack(cfg, slots, [e], [Some(w)], false)
    ensures RowWritten(cfg.hash, slots, [e], [Some(w)]) == slots[w := FREE_ENTRY][h := e]
  {
    OnePut(cfg, slots, e, Some(w));
    FreeLastOfCluster(cfg.hash, slots, w);
    PutInPlace(cfg.hash, slots[w := FREE_ENTRY], e, None, h);
  }

  lemma OnePut(cfg: Config, slots: seq<Entry>, e: Entry, drop: Option<nat>)
    requires |slots| > 0 && !cfg.asserts && ValidDrop(slots, drop)
    ensures RowWriteBack(cfg, slots, [e], [drop], false)
    ensures RowWritten(cfg.hash, slots, [e], [drop]) == RowPut(cfg.hash, slots, e, drop)
  {
    assert [e][..1] == [e] && [e][..0] == [] && [drop][..0] == [];
  }

  /** The removal of `removed` is gone from the cache and has not reached the index. */
  function Lossy(cfg: Config, keys: Keys, shardNumber: nat, v: Value): RowStore
    requires cfg.cacheSize > 0 && shardNumber > 0
  {
    Later(cfg, keys, shardNumber, FREE_ENTRY, Entry(keys.live, Ptr(0x80)), keys.RemovedShard(v))
  }

  lemma LosingStep(cfg: Config, keys: Keys, shardNumber: nat, v: Value)
    requires keys.Placed(cfg, shardNumber) && !cfg.asserts && RowInv(cfg, Before(cfg, keys, shardNumber, v))
    ensures RowStep(cfg, Before(cfg, keys, shardNumber, v), Remove(keys.present),
                    Draw(None, [Entry(keys.present, Ptr(0x80))], [Some(Home(cfg.hash, keys.removed, cfg.cacheSize))]),
                    RowRunning(Lossy(cfg, keys, shardNumber, v)))
  {
    var rs, h := Before(cfg, keys, shardNumber, v), Home(cfg.hash, keys.present, cfg.cacheSize);
    var d := Draw(None, [Entry(keys.present, Ptr(0x80))], [Some(Home(cfg.hash, keys.removed, cfg.cacheSize))]);
    PresentIsMarked(cfg, keys, shardNumber, v);
    MarkedFinishes(cfg, keys, shardNumber, v, Marked(cfg, rs, keys.present, h), d);
    StepByMark(cfg, rs, keys.present, h, d, RowRunning(Lossy(cfg, keys, shardNumber, v)));
  }

  lemma PresentIsMarked(cfg: Config, keys: Keys, shardNumber: nat, v: Value)
    requires keys.Placed(cfg, shardNumber) && RowInv(cfg, Before(cfg, keys, shardNumber, v))
    ensures var rs, h := Before(cfg, keys, shardNumber, v), Home(cfg.hash, keys.present, cfg.cacheSize);
            && AnswersFor(rs.slots, h, keys.present) && rs.slots[h].ptr.IsPresent()
            && RowInv(cfg, Marked(cfg, rs, keys.present, h))
            && Marked(cfg, rs, keys.present, h)
               == RowStore(rs.slots[h := Entry(keys.present, Ptr(0x00))],
                           Shards(cfg, keys, shardNumber, keys.PresentShard(v).(alive := 0), keys.RemovedShard(v)))
  {
    var rs, h := Before(cfg, keys, shardNumber, v), Home(cfg.hash, keys.present, cfg.cacheSize);
    HomesDiffer(cfg, keys, shardNumber);
    SlotIsKnown(rs.slots, h);
    MarkedKeepsInv(cfg, rs, keys.present, h);
    ShardsUpdated(cfg, keys, shardNumber, keys.PresentShard(v), keys.RemovedShard(v),
                  keys.PresentShard(v).(alive := 0));
  }

  lemma MarkedFinishes(cfg: Config, keys: Keys, shardNumber: nat, v: Value, marked: RowStore, d: Draw)
    requires keys.Placed(cfg, shardNumber) && !cfg.asserts && RowInv(cfg, marked)
    requires var h := Home(cfg.hash, keys.present, cfg.cacheSize);
             marked.slots == Laid(cfg, keys.Entries())[h := Entry(keys.present, Ptr(0x00))]
    requires marked.shards == Shards(cfg, keys, shardNumber, keys.PresentShard(v).(alive := 0), keys.RemovedShard(v))
    requires d == Draw(None, [Entry(keys.present, Ptr(0x80))], [Some(Home(cfg.hash, keys.removed, cfg.cacheSize))])
    ensures RowFinishes(cfg, marked, Some(Home(cfg.hash, keys.present, shardNumber)), d,
                        RowRunning(Lossy(cfg, keys, shardNumber, v)))
  {
    var h, w := Home(cfg.hash, keys.present, cfg.cacheSize), Home(cfg.hash, keys.removed, cfg.cacheSize);
    HomesDiffer(cfg, keys, shardNumber);
    UsedAfterUpdate(Laid(cfg, keys.Entries()), h, Entry(keys.present, Ptr(0x00)));
    LoneRebuild(cfg, marked, Home(cfg.hash, keys.present, shardNumber), keys.present, v, h, w);
    RebuiltIsLossy(cfg, keys, shardNumber, v, marked);
  }

  lemma RebuiltIsLossy(cfg: Config, keys: Keys, shardNumber: nat, v: Value, marked: RowStore)
    requires keys.Placed(cfg, shardNumber)
    requires var h := Home(cfg.hash, keys.present, cfg.cacheSize);
             marked.slots == Laid(cfg, keys.Entries())[h := Entry(keys.present, Ptr(0x00))]
    requires marked.shards == Shards(cfg, keys, shardNumber, keys.PresentShard(v).(alive := 0), keys.RemovedShard(v))
    ensures var h, w := Home(cfg.hash, keys.present, cfg.cacheSize), Home(cfg.hash, keys.removed, cfg.cacheSize);
            RowStore(marked.slots[w := FREE_ENTRY][h := Absent(keys.present)],
                     marked.shards[Home(cfg.hash, keys.present, shardNumber) := EMPTY_SHARD])
            == Lossy(cfg, keys, shardNumber, v)
  {
    HomesDiffer(cfg, keys, shardNumber);
    ShardsUpdated(cfg, keys, shardNumber, keys.PresentShard(v).(alive := 0), keys.RemovedShard(v), EMPTY_SHARD);
  }

  /** The value is there again, and the counter of its shard is one too low. */
  lemma LossyIsWrong(cfg: Config, keys: Keys, shardNumber: nat, v: Value)
    requires keys.Placed(cfg, shardNumber) && RowInv(cfg, Lossy(cfg, keys, shardNumber, v))
    ensures Meaning(cfg, Abs(Lossy(cfg, keys, shardNumber, v)), keys.removed) == Some(v)
    ensures !CountersOk(Abs(Lossy(cfg, keys, shardNumber, v)))
  {
    var rs, r := Lossy(cfg, keys, shardNumber, v), Home(cfg.hash, keys.removed, shardNumber);
    HomesDiffer(cfg, keys, shardNumber);
    NotCached(cfg, keys, shardNumber, FREE_ENTRY, Entry(keys.live, Ptr(0x80)), keys.removed);
    RowUsed(cfg, keys, shardNumber, FREE_ENTRY, Entry(keys.live, Ptr(0x80)));
    SlotIsKnown(rs.slots, Home(cfg.hash, keys.live, cfg.cacheSize));
    TwoLiveKeys(Contents(rs.slots), keys, v);
    assert rs.shards[r] == keys.RemovedShard(v);
  }

  lemma TwoLiveKeys(cache: map<Key, Ptr>, keys: Keys, v: Value)
    requires keys.live != keys.removed
    requires Lookup(cache, keys.live).IsPresent() && Lookup(cache, keys.removed).IsEmpty()
    ensures |LiveKeys(cache, keys.RemovedShard(v).index)| == 2
  {
    assert LiveKeys(cache, keys.RemovedShard(v).index) == {keys.live, keys.removed};
  }

  lemma LossIsReached(cfg: Config, keys: Keys, shardNumber: nat, v: Value) returns (t: RowTrace)
    requires keys.Placed(cfg, shardNumber) && !cfg.asserts
    ensures IsRowRun(t) && t.cfg == cfg && RowInv(cfg, Last(t)) && Last(t) == Lossy(cfg, keys, shardNumber, v)
    ensures t.ops == Script(keys, v) + Gets(keys, |keys.fillers|) + [Remove(keys.present)]
    ensures Meaning(cfg, Abs(Last(t)), keys.removed) == Some(v) && !CountersOk(Abs(Last(t)))
  {
    var before := BeforeIsReached(cfg, keys, shardNumber, v);
    LosingStep(cfg, keys, shardNumber, v);
    t := GoOn(before, Remove(keys.present),
              Draw(None, [Entry(keys.present, Ptr(0x80))], [Some(Home(cfg.hash, keys.removed, cfg.cacheSize))]),
              Lossy(cfg, keys, shardNumber, v));
    LossyIsWrong(cfg, keys, shardNumber, v);
  }

  /** A call that is no add runs through in a build without assertions. */
  lemma RunsThrough(cfg: Config, rs: RowStore, op: Op) returns (d: Draw, next: RowStore)
    requires RowInv(cfg, rs) && !cfg.asserts && !op.Add?
    ensures RowStep(cfg, rs, op, d, RowRunning(next))
  {
    var out;
    NeverFull(cfg.hash, rs.slots);
    var drop := SomeDrop(rs.slots);
    d, out := StepIsEnabled(cfg, rs, op, drop);
    RowInvIsInv(cfg, rs);
    RowStepIsStep(cfg, rs, op, d, out);
    CallStops(cfg, Abs(rs), op, ChoiceOf(cfg, rs, op, d), AbsOutcome(out));
    next := out.store;
  }

  lemma {:induction false} NotAddedAgain(ops: seq<Op>, key: Key, i: nat)
    requires i < |ops| && ops[i] == Remove(key)
    requires forall j :: i < j < |ops| ==> ops[j].key != key || ops[j].Get?
    ensures key !in MapAfter(ops)
  {
    if i < |ops| - 1 {
      NotAddedAgain(ops[..|ops| - 1], key, i);
    }
  }

  /** So there is a run without assertions that answers a get of a removed key with its old
      value, where a plain map has none. */
  lemma ExampleLoses(cfg: Config, keys: Keys, shardNumber: nat, v: Value) returns (t: RowTrace)
    requires keys.Placed(cfg, shardNumber) && !cfg.asserts
    ensures IsRowRun(t) && t.cfg == cfg && |t.ops| > 0
    ensures t.ops == Script(keys, v) + Gets(keys, |keys.fillers|) + [Remove(keys.present)] + [Get(keys.removed)]
    ensures t.results[|t.ops| - 1] == Some(v)
    ensures Answer(MapAfter(t.ops[..|t.ops| - 1]), t.ops[|t.ops| - 1]) == None
  {
    var lossy := LossIsReached(cfg, keys, shardNumber, v);
    var d, end := RunsThrough(cfg, Last(lossy), Get(keys.removed));
    t := GoOn(lossy, Get(keys.removed), d, end);
    assert t.ops[..|t.ops| - 1] == lossy.ops;
    PlainMapHasNone(cfg, keys, shardNumber, v);
  }

  lemma PlainMapHasNone(cfg: Config, keys: Keys, shardNumber: nat, v: Value)
    requires keys.Placed(cfg, shardNumber)
    ensures var ops := Script(keys, v) + Gets(keys, |keys.fillers|) + [Remove(keys.present)];
            keys.removed !in MapAfter(ops)
  {
    var ops, all := Script(keys, v) + Gets(keys, |keys.fillers|) + [Remove(keys.present)], keys.All();
    assert all[0] == keys.present && all[2] == keys.removed;
    NotAddedAgain(ops, keys.removed, 3);
  }

  // ----- The counter wraps -----

  /** `other` can take the slot of `live`, and lies in another shard. */
  ghost predicate Displaces(cfg: Config, keys: Keys, shardNumber: nat, other: Key)
    requires cfg.cacheSize > 0 && shardNumber > 0
  {
    var l := Home(cfg.hash, keys.live, cfg.cacheSize);
    && Home(cfg.hash, other, cfg.cacheSize) == l && other !in keys.All()
    && Home(cfg.hash, other, shardNumber) != Home(cfg.hash, keys.removed, shardNumber)
    && forall i :: 0 <= i < |keys.All()| ==> Home(cfg.hash, keys.All()[i], cfg.cacheSize) != Next(cfg.cacheSize, l)
  }

  /** The shard after `live` was removed in its index, and after `removed` was too. */
  function OneRemoved(keys: Keys, v: Value): ShardState {
    ShardState(map[keys.live := Ptr(0x00), keys.removed := Ptr(0x81)], [v, v], 0)
  }

  function BothRemoved(keys: Keys, v: Value): ShardState {
    ShardState(map[keys.live := Ptr(0x00), keys.removed := Ptr(0x01)], [v, v], 255)
  }

  /** A remove over the load of a key that is not cached, when its home slot is the one freed,
      and the displaced key is known to be gone. */
  lemma HeavyRemove(cfg: Config, rs: RowStore, key: Key, w: nat, shards: seq<ShardState>)
    requires RowInv(cfg, rs) && Overloaded(rs.slots) && Droppable(rs.slots, w)
    requires Home(cfg.hash, key, cfg.cacheSize) == w && rs.slots[w].ptr.IsNonexistent()
    requires Lookup(Contents(rs.slots), key).IsEmpty()
    requires var i := Home(cfg.hash, key, |rs.shards|); shards == rs.shards[i := RemoveEntry(rs.shards[i], key)]
    requires !RebuildRequired(shards[Home(cfg.hash, rs.slots[w].key, |rs.shards|)])
    ensures RowStep(cfg, rs, Remove(key), Draw(Some(w), [], []),
                    RowRunning(RowStore(rs.slots[w := Absent(key)], shards)))
  {
    ContentsRepresents(rs.slots);
    RowPrepares(cfg, rs, Remove(key), Draw(Some(w), [], []));
    RemovePrepares(cfg, Abs(rs), key, rs.slots[w].key);
    StopSlotIs(cfg.hash, Freed(rs.slots, Some(w)), key, w);
    UpdatedTwice(rs.slots, w, FREE_ENTRY, Absent(key));
  }

  lemma RemovePrepares(cfg: Config, st: Store, key: Key, victim: Key)
    requires Linked(cfg, st) && Lookup(st.cache, key).IsEmpty() && Lookup(st.cache, victim).IsNonexistent()
    ensures var prepared, i := Prepare(cfg, st, Remove(key), Some(victim)), ShardOf(cfg, st, key);
            && prepared.Ready? && prepared.check == Some(ShardOf(cfg, st, victim))
            && prepared.store.shards == st.shards[i := RemoveEntry(st.shards[i], key)]
            && Lookup(prepared.store.cache, key) == NONEXISTENT_PTR
  {
  }

  lemma AsksNothing(cfg: Config, keys: Keys, shardNumber: nat, s: ShardState, j: nat)
    requires j < shardNumber && (j == Home(cfg.hash, keys.removed, shardNumber) ==> !RebuildRequired(s))
    ensures !RebuildRequired(Shards(cfg, keys, shardNumber, EMPTY_SHARD, s)[j])
  {
  }

  /** `spare` takes the free slot. */
  lemma SpareFills(cfg: Config, keys: Keys, shardNumber: nat, v: Value)
    requires keys.Placed(cfg, shardNumber) && RowInv(cfg, Lossy(cfg, keys, shardNumber, v))
    ensures RowStep(cfg, Lossy(cfg, keys, shardNumber, v), Get(keys.spare), NO_DRAW,
                    RowRunning(Later(cfg, keys, shardNumber, Absent(keys.spare), Entry(keys.live, Ptr(0x80)),
                                     keys.RemovedShard(v))))
  {
    var rs, y := Lossy(cfg, keys, shardNumber, v), Entry(keys.live, Ptr(0x80));
    var w, i := Home(cfg.hash, keys.removed, cfg.cacheSize), Home(cfg.hash, keys.spare, shardNumber);
    assert keys.All()[1] == keys.live && keys.All()[2] == keys.removed;
    RowUsed(cfg, keys, shardNumber, FREE_ENTRY, y);
    NotCached(cfg, keys, shardNumber, FREE_ENTRY, y, keys.spare);
    LightMiss(cfg, rs, Get(keys.spare));
    StopSlotIs(cfg.hash, rs.slots, keys.spare, w);
    RowUpdated(cfg, keys, shardNumber, FREE_ENTRY, y, Absent(keys.spare));
    assert rs.shards[i := rs.shards[i]] == rs.shards;
  }

  /** `other` displaces `live`. */
  lemma OtherDisplaces(cfg: Config, keys: Keys, shardNumber: nat, v: Value, other: Key)
    requires keys.Placed(cfg, shardNumber) && Displaces(cfg, keys, shardNumber, other)
    requires RowInv(cfg, Later(cfg, keys, shardNumber, Absent(keys.spare), Entry(keys.live, Ptr(0x80)),
                               keys.RemovedShard(v)))
    ensures RowStep(cfg, Later(cfg, keys, shardNumber, Absent(keys.spare), Entry(keys.live, Ptr(0x80)),
                               keys.RemovedShard(v)),
                    Get(other), Draw(Some(Home(cfg.hash, keys.live, cfg.cacheSize)), [], []),
                    RowRunning(Later(cfg, keys, shardNumber, Absent(keys.spare), Absent(other), keys.RemovedShard(v))))
  {
    var x, y := Absent(keys.spare), Entry(keys.live, Ptr(0x80));
    var rs, l := Later(cfg, keys, shardNumber, x, y, keys.RemovedShard(v)), Home(cfg.hash, keys.live, cfg.cacheSize);
    assert keys.All()[1] == keys.live && keys.All()[2] == keys.removed;
    RowUsed(cfg, keys, shardNumber, x, y);
    LiveEndsCluster(cfg, keys, shardNumber, x, y, other);
    NotCached(cfg, keys, shardNumber, x, y, other);
    forall j | 0 <= j < |rs.shards|
      ensures !RebuildRequired(rs.shards[j])
    {
      AsksNothing(cfg, keys, shardNumber, keys.RemovedShard(v), j);
    }
    HeavyGet(cfg, rs, other, l);
    RowUpdated(cfg, keys, shardNumber, x, y, Absent(other));
  }

  lemma LiveEndsCluster(cfg: Config, keys: Keys, shardNumber: nat, x: Entry, y: Entry, other: Key)
    requires keys.Placed(cfg, shardNumber) && Displaces(cfg, keys, shardNumber, other) && !y.IsFree()
    ensures Droppable(Row(cfg, keys, x, y), Home(cfg.hash, keys.live, cfg.cacheSize))
    ensures keys.spare != other
  {
    HomesDiffer(cfg, keys, shardNumber);
    FreeAfterLive(cfg, keys, shardNumber, other);
  }

  lemma FreeAfterLive(cfg: Config, keys: Keys, shardNumber: nat, other: Key)
    requires keys.Placed(cfg, shardNumber) && Displaces(cfg, keys, shardNumber, other)
    ensures var next := Next(cfg.cacheSize, Home(cfg.hash, keys.live, cfg.cacheSize));
            && Laid(cfg, keys.Entries())[next].IsFree()
            && next != Home(cfg.hash, keys.present, cfg.cacheSize)
            && next != Home(cfg.hash, keys.removed, cfg.cacheSize)
            && next != Home(cfg.hash, keys.live, cfg.cacheSize)
  {
    var entries, all := keys.Entries(), keys.All();
    assert all[0] == keys.present && all[1] == keys.live && all[2] == keys.removed;
    EntriesAreHoused(cfg, keys, shardNumber);
    assert forall i :: 0 <= i < |entries| ==> entries[i].key == all[i];
    LaidAt(cfg, entries, Next(cfg.cacheSize, Home(cfg.hash, keys.live, cfg.cacheSize)));
  }

  /** `live` is removed in the index, and displaces `other`. */
  lemma LiveIsRemoved(cfg: Config, keys: Keys, shardNumber: nat, v: Value, other: Key)
    requires keys.Placed(cfg, shardNumber) && Displaces(cfg, keys, shardNumber, other)
    requires RowInv(cfg, Later(cfg, keys, shardNumber, Absent(keys.spare), Absent(other), keys.RemovedShard(v)))
    ensures RowStep(cfg, Later(cfg, keys, shardNumber, Absent(keys.spare), Absent(other), keys.RemovedShard(v)),
                    Remove(keys.live), Draw(Some(Home(cfg.hash, keys.live, cfg.cacheSize)), [], []),
                    RowRunning(Later(cfg, keys, shardNumber, Absent(keys.spare), Absent(keys.live),
                                     OneRemoved(keys, v))))
  {
    var x, y, l := Absent(keys.spare), Absent(other), Home(cfg.hash, keys.live, cfg.cacheSize);
    var rs := Later(cfg, keys, shardNumber, x, y, keys.RemovedShard(v));
    assert keys.All()[1] == keys.live && keys.All()[2] == keys.removed;
    RowUsed(cfg, keys, shardNumber, x, y);
    LiveEndsCluster(cfg, keys, shardNumber, x, y, other);
    NotCached(cfg, keys, shardNumber, x, y, keys.live);
    RemovedInIndex(keys, v);
    ShardsUpdated(cfg, keys, shardNumber, EMPTY_SHARD, keys.RemovedShard(v), OneRemoved(keys, v));
    AsksNothing(cfg, keys, shardNumber, OneRemoved(keys, v), Home(cfg.hash, other, shardNumber));
    HeavyRemove(cfg, rs, keys.live, l, Shards(cfg, keys, shardNumber, EMPTY_SHARD, OneRemoved(keys, v)));
    RowUpdated(cfg, keys, shardNumber, x, y, Absent(keys.live));
  }

  /** `removed` is removed again, in the index, and displaces `spare`. */
  lemma RemovedAgain(cfg: Config, keys: Keys, shardNumber: nat, v: Value)
    requires keys.Placed(cfg, shardNumber)
    requires RowInv(cfg, Later(cfg, keys, shardNumber, Absent(keys.spare), Absent(keys.live), OneRemoved(keys, v)))
    ensures RowStep(cfg, Later(cfg, keys, shardNumber, Absent(keys.spare), Absent(keys.live), OneRemoved(keys, v)),
                    Remove(keys.removed), Draw(Some(Home(cfg.hash, keys.removed, cfg.cacheSize)), [], []),
                    RowRunning(Later(cfg, keys, shardNumber, Absent(keys.removed), Absent(keys.live),
                                     BothRemoved(keys, v))))
  {
    var x, y, w := Absent(keys.spare), Absent(keys.live), Home(cfg.hash, keys.removed, cfg.cacheSize);
    var rs := Later(cfg, keys, shardNumber, x, y, OneRemoved(keys, v));
    HomesDiffer(cfg, keys, shardNumber);
    assert keys.All()[1] == keys.live && keys.All()[2] == keys.removed;
    RowUsed(cfg, keys, shardNumber, x, y);
    NotCached(cfg, keys, shardNumber, x, y, keys.removed);
    RemovedInIndex(keys, v);
    ShardsUpdated(cfg, keys, shardNumber, EMPTY_SHARD, OneRemoved(keys, v), BothRemoved(keys, v));
    AsksNothing(cfg, keys, shardNumber, BothRemoved(keys, v), Home(cfg.hash, keys.spare, shardNumber));
    HeavyRemove(cfg, rs, keys.removed, w, Shards(cfg, keys, shardNumber, EMPTY_SHARD, BothRemoved(keys, v)));
    RowUpdated(cfg, keys, shardNumber, x, y, Absent(keys.removed));
  }

  /** The first remove takes the counter to zero, the second one below. */
  lemma RemovedInIndex(keys: Keys, v: Value)
    requires keys.live != keys.removed
    ensures RemoveEntry(keys.RemovedShard(v), keys.live) == OneRemoved(keys, v)
    ensures RemoveEntry(OneRemoved(keys, v), keys.removed) == BothRemoved(keys, v)
  {
  }

  lemma OtherIsReached(cfg: Config, keys: Keys, shardNumber: nat, v: Value, other: Key) returns (t: RowTrace)
    requires keys.Placed(cfg, shardNumber) && Displaces(cfg, keys, shardNumber, other) && !cfg.asserts
    ensures IsRowRun(t) && t.cfg == cfg && RowInv(cfg, Last(t))
    ensures Last(t) == Later(cfg, keys, shardNumber, Absent(keys.spare), Absent(other), keys.RemovedShard(v))
    ensures t.ops == Script(keys, v) + Gets(keys, |keys.fillers|) + [Remove(keys.present)] + [Get(keys.spare)]
                     + [Get(other)]
  {
    t := LossIsReached(cfg, keys, shardNumber, v);
    SpareFills(cfg, keys, shardNumber, v);
    t := GoOn(t, Get(keys.spare), NO_DRAW,
              Later(cfg, keys, shardNumber, Absent(keys.spare), Entry(keys.live, Ptr(0x80)), keys.RemovedShard(v)));
    OtherDisplaces(cfg, keys, shardNumber, v, other);
    t := GoOn(t, Get(other), Draw(Some(Home(cfg.hash, keys.live, cfg.cacheSize)), [], []),
              Later(cfg, keys, shardNumber, Absent(keys.spare), Absent(other), keys.RemovedShard(v)));
  }

  lemma BothAreRemoved(cfg: Config, keys: Keys, shardNumber: nat, v: Value, other: Key) returns (t: RowTrace)
    requires keys.Placed(cfg, shardNumber) && Displaces(cfg, keys, shardNumber, other) && !cfg.asserts
    ensures IsRowRun(t) && t.cfg == cfg
    ensures Last(t) == Later(cfg, keys, shardNumber, Absent(keys.removed), Absent(keys.live), BothRemoved(keys, v))
    ensures t.ops == Script(keys, v) + Gets(keys, |keys.fillers|) + [Remove(keys.present)] + [Get(keys.spare)]
                     + [Get(other)] + [Remove(keys.live)] + [Remove(keys.removed)]
  {
    t := OtherIsReached(cfg, keys, shardNumber, v, other);
    LiveIsRemoved(cfg, keys, shardNumber, v, other);
    t := GoOn(t, Remove(keys.live), Draw(Some(Home(cfg.hash, keys.live, cfg.cacheSize)), [], []),
              Later(cfg, keys, shardNumber, Absent(keys.spare), Absent(keys.live), OneRemoved(keys, v)));
    RemovedAgain(cfg, keys, shardNumber, v);
    t := GoOn(t, Remove(keys.removed), Draw(Some(Home(cfg.hash, keys.removed, cfg.cacheSize)), [], []),
              Later(cfg, keys, shardNumber, Absent(keys.removed), Absent(keys.live), BothRemoved(keys, v)));
  }

  /** A run goes on from the loss to a shard without a live key whose counter is 255. With that
      counter no shard asks for a rebuild, whatever it holds. */
  lemma CounterWraps(cfg: Config, keys: Keys, shardNumber: nat, v: Value, other: Key) returns (t: RowTrace)
    requires keys.Placed(cfg, shardNumber) && Displaces(cfg, keys, shardNumber, other) && !cfg.asserts
    ensures IsRowRun(t) && t.cfg == cfg && |Last(t).shards| > 0
    ensures t.ops == Script(keys, v) + Gets(keys, |keys.fillers|) + [Remove(keys.present)] + [Get(keys.spare)]
                     + [Get(other)] + [Remove(keys.live)] + [Remove(keys.removed)]
    ensures var s := Last(t).shards[ShardOf(cfg, Abs(Last(t)), keys.removed)];
            && s.alive == 255 && LiveKeys(Contents(Last(t).slots), s.index) == {} && |s.values| == 2
            && forall s' :: ShardInv(s') && s'.alive == s.alive ==> !RebuildRequired(s')
  {
    t := BothAreRemoved(cfg, keys, shardNumber, v, other);
    WrappedShard(cfg, keys, shardNumber, v);
    NoneLives(Contents(Last(t).slots), keys, v);
  }

  lemma WrappedShard(cfg: Config, keys: Keys, shardNumber: nat, v: Value)
    requires keys.Placed(cfg, shardNumber)
    ensures Shards(cfg, keys, shardNumber, EMPTY_SHARD, BothRemoved(keys, v))[Home(cfg.hash, keys.removed, shardNumber)]
            == BothRemoved(keys, v)
  {
  }

  lemma NoneLives(cache: map<Key, Ptr>, keys: Keys, v: Value)
    ensures LiveKeys(cache, BothRemoved(keys, v).index) == {}
    ensures forall s :: ShardInv(s) && s.alive == 255 ==> !RebuildRequired(s)
  {
  }

  // ----- Such keys at the program's sizes -----

  function KeyOf(n: nat): Key
    requires n < 0x1_0000
  {
    Key([n % 256, n / 256] + seq(KEY_SIZE - 2, _ => 0))
  }

  function LowBytes(key: Key): nat {
    var low: nat, high: nat := key.bytes[0], key.bytes[1];
    low + 256 * high
  }

  /** For the sizes the program has, there is a hash and there are keys as the examples need. */
  lemma ExampleFitsProgram(asserts: bool) returns (cfg: Config, keys: Keys, other: Key)
    ensures keys.Placed(cfg, SHARD_NUMBER) && cfg.cacheSize == CACHE_MAP_SIZE && cfg.asserts == asserts
    ensures Displaces(cfg, keys, SHARD_NUMBER, other)
  {
    cfg := Config((key: Key, seed) => LowBytes(key), CACHE_MAP_SIZE, asserts);
    keys := Keys(KeyOf(2), KeyOf(4981), KeyOf(0), seq(3331, i requires 0 <= i < 3331 => KeyOf(i + 3)), KeyOf(5000));
    other := KeyOf(9981);
    forall n | 0 <= n < 0x1_0000
      ensures cfg.hash(KeyOf(n), 0) == n
    {
    }
    var all := keys.All();
    forall i | 0 <= i < |all|
      ensures cfg.hash(all[i], 0) == NumberAt(i)
    {
      assert all[i] == KeyOf(NumberAt(i));
    }
    KeysFit(cfg, keys);
    OtherFits(cfg, keys, other);
  }

  lemma KeysFit(cfg: Config, keys: Keys)
    requires cfg.cacheSize == CACHE_MAP_SIZE && cfg.hash(keys.spare, 0) == 5000 && |keys.fillers| == 3331
    requires forall i :: 0 <= i < |keys.All()| ==> cfg.hash(keys.All()[i], 0) == NumberAt(i)
    ensures keys.Placed(cfg, SHARD_NUMBER)
  {
    var all := keys.All();
    assert all[0] == keys.present && all[1] == keys.live && all[2] == keys.removed;
    forall i | 0 <= i < |all|
      ensures Home(cfg.hash, all[i], CACHE_MAP_SIZE) == NumberAt(i)
    {
    }
    assert Home(cfg.hash, keys.spare, CACHE_MAP_SIZE) == 0;
  }

  lemma OtherFits(cfg: Config, keys: Keys, other: Key)
    requires cfg.cacheSize == CACHE_MAP_SIZE && cfg.hash(other, 0) == 9981 && |keys.All()| == 3334
    requires forall i :: 0 <= i < |keys.All()| ==> cfg.hash(keys.All()[i], 0) == NumberAt(i)
    ensures Displaces(cfg, keys, SHARD_NUMBER, other)
  {
    var all := keys.All();
    assert all[1] == keys.live && all[2] == keys.removed;
    assert Home(cfg.hash, other, CACHE_MAP_SIZE) == 4981 && Home(cfg.hash, keys.live, CACHE_MAP_SIZE) == 4981;
  }

  /** The numbers of the keys in the order of `All`. */
  function NumberAt(i: nat): nat {
    if i == 0 then 2 else if i == 1 then 4981 else if i == 2 then 0 else i
  }
}
