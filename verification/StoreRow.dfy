/** The store with its cache as the row of slots that it is. A put can displace only the last
    entry of a cluster, so there are fewer steps than the store on a map allows; each of them
    is one of its steps. */
module StoreRow {
  import opened KeyValueTypes
  import opened LinearProbing
  import opened CacheRow
  import opened ShardModel
  import opened RebuildModel
  import opened StoreModel
  import opened StoreInvariant
  import opened StoreSteps
  import opened StoreRebuild
  import opened StoreRuns

  datatype RowStore = RowStore(slots: seq<Entry>, shards: seq<ShardState>)

  datatype RowOutcome = RowRunning(store: RowStore) | RowStopped(reason: StopReason)

  /** What a call leaves to chance: the slot its put frees, the order of the entries of the
      shard it rebuilds, and the slots the write-back of that rebuild frees. */
  datatype Draw = Draw(drop: Option<nat>, entries: seq<Entry>, drops: seq<Option<nat>>)

  /** The store on a map. */
  ghost function Abs(rs: RowStore): Store {
    Store(Contents(rs.slots), rs.shards)
  }

  ghost function AbsOutcome(out: RowOutcome): Outcome {
    match out
    case RowRunning(next) => Running(Abs(next))
    case RowStopped(reason) => Stopped(reason)
  }

  ghost predicate RowInv(cfg: Config, rs: RowStore) {
    && |rs.slots| == cfg.cacheSize >= 4 && RowOk(cfg.hash, rs.slots)
    && Linked(cfg, Abs(rs))
  }

  lemma RowInvIsInv(cfg: Config, rs: RowStore)
    requires RowInv(cfg, rs)
    ensures Inv(cfg, Abs(rs))
    ensures Heavy(cfg.cacheSize, Abs(rs).cache) <==> Overloaded(rs.slots)
  {
    UsedIsSize(rs.slots);
  }

  // ----- A put -----

  function VictimOf(slots: seq<Entry>, drop: Option<nat>): Option<Key> {
    if drop.Some? && drop.value < |slots| then Some(slots[drop.value].key) else None
  }

  /** On the map a put displaces the key in the slot that it frees. */
  lemma RowPutIsPut(hash: Hasher, slots: seq<Entry>, e: Entry, drop: Option<nat>)
    requires RowOk(hash, slots) && |slots| >= 4 && ValidDrop(slots, drop) && !e.IsFree()
    ensures RowOk(hash, RowPut(hash, slots, e, drop))
    ensures Contents(RowPut(hash, slots, e, drop)) == CachePut(Contents(slots), e, VictimOf(slots, drop))
  {
    NeverFull(hash, slots);
    RowPutIsRight(hash, slots, e, drop);
  }

  lemma DropIsVictim(hash: Hasher, slots: seq<Entry>, drop: Option<nat>)
    requires RowOk(hash, slots) && ValidDrop(slots, drop)
    ensures ValidVictim(|slots|, Contents(slots), VictimOf(slots, drop))
  {
    UsedIsSize(slots);
    ContentsRepresents(slots);
  }

  /** The other kind of put overwrites a key that is cached, whatever the load. */
  lemma RowOverwriteIsPut(hash: Hasher, slots: seq<Entry>, e: Entry)
    requires RowOk(hash, slots) && e.key in Contents(slots) && !e.IsFree()
    ensures RowOk(hash, RowPut(hash, slots, e, None))
    ensures Contents(RowPut(hash, slots, e, None)) == Contents(slots)[e.key := e.ptr]
  {
    var p := SlotOf(slots, e.key);
    PutInPlace(hash, slots, e, None, p);
    OverwriteKeepsRow(hash, slots, e, p);
  }

  lemma OverwriteKeepsRow(hash: Hasher, slots: seq<Entry>, e: Entry, p: nat)
    requires RowOk(hash, slots) && p < |slots| && !slots[p].IsFree() && slots[p].key == e.key && !e.IsFree()
    ensures RowOk(hash, slots[p := e])
    ensures Contents(slots[p := e]) == Contents(slots)[e.key := e.ptr]
  {
    UsedAfterUpdate(slots, p, e);
    ContentsRepresents(slots);
    StoredContents(slots, e, p);
    ReflaggedGapFree(hash, slots, e, p);
  }

  lemma ReflaggedGapFree(hash: Hasher, slots: seq<Entry>, e: Entry, p: nat)
    requires WellProbed(hash, slots) && p < |slots| && !slots[p].IsFree() && slots[p].key == e.key && !e.IsFree()
    ensures GapFree(hash, slots[p := e])
  {
  }

  // ----- The write-back -----

  function RowWritten(hash: Hasher, slots: seq<Entry>, updates: seq<Entry>, drops: seq<Option<nat>>)
    : (after: seq<Entry>)
    requires |slots| > 0 && |updates| == |drops|
    ensures |after| == |slots|
  {
    if updates == [] then slots
    else
      var last := |updates| - 1;
      RowPut(hash, RowWritten(hash, slots, updates[..last], drops[..last]), updates[last], drops[last])
  }

  predicate ValidDrops(hash: Hasher, slots: seq<Entry>, updates: seq<Entry>, drops: seq<Option<nat>>)
    requires |slots| > 0 && |updates| == |drops|
  {
    updates != [] ==>
      var last := |updates| - 1;
      && ValidDrops(hash, slots, updates[..last], drops[..last])
      && ValidDrop(RowWritten(hash, slots, updates[..last], drops[..last]), drops[last])
  }

  function VictimsOf(hash: Hasher, slots: seq<Entry>, updates: seq<Entry>, drops: seq<Option<nat>>)
    : (victims: seq<Option<Key>>)
    requires |slots| > 0 && |updates| == |drops|
    ensures |victims| == |drops|
  {
    if updates == [] then []
    else
      var last := |updates| - 1;
      VictimsOf(hash, slots, updates[..last], drops[..last])
      + [VictimOf(RowWritten(hash, slots, updates[..last], drops[..last]), drops[last])]
  }

  ghost predicate NoneDropped(drops: seq<Option<nat>>) {
    forall j :: 0 <= j < |drops| ==> drops[j].None?
  }

  /** As `WriteBack`, with slots for keys. */
  ghost predicate RowWriteBack(cfg: Config, slots: seq<Entry>, updates: seq<Entry>, drops: seq<Option<nat>>,
                               stopped: bool)
    requires |slots| > 0
  {
    && |drops| <= |updates|
    && ValidDrops(cfg.hash, slots, updates[..|drops|], drops)
    && if stopped
       then cfg.asserts && drops != [] && drops[|drops| - 1].Some? && NoneDropped(drops[..|drops| - 1])
       else |drops| == |updates| && (cfg.asserts ==> NoneDropped(drops))
  }

  ghost predicate AllTaken(updates: seq<Entry>) {
    forall j :: 0 <= j < |updates| ==> !updates[j].IsFree()
  }

  /** The write-back in the row is the one on the map. */
  lemma {:induction false} RowWrittenIs(hash: Hasher, slots: seq<Entry>, updates: seq<Entry>, drops: seq<Option<nat>>)
    requires RowOk(hash, slots) && |slots| >= 4 && AllTaken(updates)
    requires |updates| == |drops| && ValidDrops(hash, slots, updates, drops)
    ensures RowOk(hash, RowWritten(hash, slots, updates, drops))
    ensures ValidVictims(|slots|, Contents(slots), updates, VictimsOf(hash, slots, updates, drops))
    ensures Contents(RowWritten(hash, slots, updates, drops))
            == AfterWriteBack(Contents(slots), updates, VictimsOf(hash, slots, updates, drops))
  {
    if updates != [] {
      var last := |updates| - 1;
      RowWrittenIs(hash, slots, updates[..last], drops[..last]);
      var row := RowWritten(hash, slots, updates[..last], drops[..last]);
      DropIsVictim(hash, row, drops[last]);
      RowPutIsPut(hash, row, updates[last], drops[last]);
      var victims := VictimsOf(hash, slots, updates, drops);
      assert victims[..last] == VictimsOf(hash, slots, updates[..last], drops[..last]);
    }
  }

  lemma {:induction false} VictimsAreDrops(hash: Hasher, slots: seq<Entry>, updates: seq<Entry>,
                                           drops: seq<Option<nat>>, j: nat)
    requires |slots| > 0 && |updates| == |drops| && ValidDrops(hash, slots, updates, drops) && j < |drops|
    ensures VictimsOf(hash, slots, updates, drops)[j].Some? <==> drops[j].Some?
  {
    var last := |updates| - 1;
    if j < last {
      VictimsAreDrops(hash, slots, updates[..last], drops[..last], j);
    }
  }

  lemma RowWriteBackIs(cfg: Config, slots: seq<Entry>, updates: seq<Entry>, drops: seq<Option<nat>>, stopped: bool)
    requires RowOk(cfg.hash, slots) && |slots| == cfg.cacheSize >= 4 && AllTaken(updates)
    requires RowWriteBack(cfg, slots, updates, drops, stopped)
    ensures WriteBack(cfg, Contents(slots), updates, VictimsOf(cfg.hash, slots, updates[..|drops|], drops), stopped)
  {
    var done := updates[..|drops|];
    var victims := VictimsOf(cfg.hash, slots, done, drops);
    RowWrittenIs(cfg.hash, slots, done, drops);
    forall j | 0 <= j < |drops|
      ensures victims[j].Some? <==> drops[j].Some?
    {
      VictimsAreDrops(cfg.hash, slots, done, drops, j);
    }
    SameDisplacements(drops, victims);
  }

  lemma SameDisplacements(drops: seq<Option<nat>>, victims: seq<Option<Key>>)
    requires |drops| == |victims| && forall j :: 0 <= j < |drops| ==> (victims[j].Some? <==> drops[j].Some?)
    ensures NoneDropped(drops) <==> NoneDisplaced(victims)
    ensures drops != [] ==> (NoneDropped(drops[..|drops| - 1]) <==> NoneDisplaced(victims[..|drops| - 1]))
  {
  }

  // ----- The rebuild -----

  ghost predicate RowRebuild(cfg: Config, rs: RowStore, i: nat, d: Draw, out: RowOutcome)
    requires RowInv(cfg, rs) && i < |rs.shards|
  {
    && Enumerates(d.entries, rs.shards[i].index)
    && (ShardIsReadable(rs.shards[i], d.entries);
        if cfg.asserts && KnownGone(Abs(rs), i) then out == RowStopped(IndexAssertion)
        else
          var r := Compacted(Abs(rs), i, d.entries);
          match out
          case RowStopped(reason) =>
            reason == WriteBackAssertion && RowWriteBack(cfg, rs.slots, r.updates, d.drops, true)
          case RowRunning(next) =>
            && RowWriteBack(cfg, rs.slots, r.updates, d.drops, false)
            && next.slots == RowWritten(cfg.hash, rs.slots, r.updates, d.drops)
            && next.shards == rs.shards[i := RebuiltShard(r)])
  }

  /** The victims of the rebuild's write-back. */
  ghost function RebuildVictims(cfg: Config, rs: RowStore, i: nat, d: Draw): seq<Option<Key>>
    requires RowInv(cfg, rs) && i < |rs.shards|
  {
    if Readable(d.entries, |rs.shards[i].values|) && |d.drops| <= |Compacted(Abs(rs), i, d.entries).updates|
    then VictimsOf(cfg.hash, rs.slots, Compacted(Abs(rs), i, d.entries).updates[..|d.drops|], d.drops)
    else []
  }

  lemma RowRebuildIsRebuild(cfg: Config, rs: RowStore, i: nat, d: Draw, out: RowOutcome, victim: Option<Key>)
    requires RowInv(cfg, rs) && i < |rs.shards| && RowRebuild(cfg, rs, i, d, out)
    ensures RebuildStep(cfg, Abs(rs), i, Choice(victim, d.entries, RebuildVictims(cfg, rs, i, d)), AbsOutcome(out))
    ensures out.RowRunning? ==> RowOk(cfg.hash, out.store.slots) && |out.store.slots| == cfg.cacheSize
  {
    ShardIsReadable(rs.shards[i], d.entries);
    var updates := Compacted(Abs(rs), i, d.entries).updates;
    UpdatesAreCached(cfg, Abs(rs), i, d.entries);
    if !(cfg.asserts && KnownGone(Abs(rs), i)) {
      RowWriteBackIs(cfg, rs.slots, updates, d.drops, out.RowStopped?);
      if out.RowRunning? {
        assert updates[..|d.drops|] == updates;
        RowWrittenIs(cfg.hash, rs.slots, updates, d.drops);
      }
    }
  }

  /** One more put of the write-back. */
  lemma WriteBackGoesOn(cfg: Config, slots: seq<Entry>, updates: seq<Entry>, j: nat, drops: seq<Option<nat>>,
                        drop: Option<nat>)
    requires |slots| > 0 && j < |updates| && RowWriteBack(cfg, slots, updates[..j], drops, false)
    requires ValidDrop(RowWritten(cfg.hash, slots, updates[..j], drops), drop)
    ensures RowWritten(cfg.hash, slots, updates[..j + 1], drops + [drop])
            == RowPut(cfg.hash, RowWritten(cfg.hash, slots, updates[..j], drops), updates[j], drop)
    ensures cfg.asserts && drop.Some? ==> RowWriteBack(cfg, slots, updates, drops + [drop], true)
    ensures !(cfg.asserts && drop.Some?) ==> RowWriteBack(cfg, slots, updates[..j + 1], drops + [drop], false)
  {
    PrefixesAre(updates, j, drops, drop);
    assert ValidDrops(cfg.hash, slots, updates[..j], drops);
    WrittenOneMore(cfg.hash, slots, updates, j, drops, drop);
  }

  lemma WrittenOneMore(hash: Hasher, slots: seq<Entry>, updates: seq<Entry>, j: nat, drops: seq<Option<nat>>,
                       drop: Option<nat>)
    requires |slots| > 0 && j < |updates| && |drops| == j
    requires ValidDrops(hash, slots, updates[..j], drops)
    requires ValidDrop(RowWritten(hash, slots, updates[..j], drops), drop)
    ensures RowWritten(hash, slots, updates[..j + 1], drops + [drop])
            == RowPut(hash, RowWritten(hash, slots, updates[..j], drops), updates[j], drop)
    ensures ValidDrops(hash, slots, updates[..j + 1], drops + [drop])
  {
    var more := drops + [drop];
    assert updates[..j + 1][..j] == updates[..j] && more[..j] == drops;
  }

  lemma PrefixesAre(updates: seq<Entry>, j: nat, drops: seq<Option<nat>>, drop: Option<nat>)
    requires j < |updates| && |drops| == j
    ensures updates[..j + 1][..|drops + [drop]|] == updates[..j + 1] && updates[..|drops + [drop]|] == updates[..j + 1]
    ensures updates[..j][..|drops|] == updates[..j] && (drops + [drop])[..j] == drops
  {
  }

  // ----- One call -----

  /** The row after the put of a call, or after the change of a flag in place: every call leaves
      the cache knowing its key. */
  function RowReady(cfg: Config, rs: RowStore, op: Op, drop: Option<nat>, ready: Store): RowStore
    requires |rs.slots| > 0
  {
    RowStore(RowPut(cfg.hash, rs.slots, Entry(op.key, Lookup(ready.cache, op.key)), drop), ready.shards)
  }

  /** The slot that the put of the call frees, if there is a put. */
  ghost function DropOf(rs: RowStore, op: Op, drop: Option<nat>): Option<nat> {
    if Puts(Abs(rs), op) then drop else None
  }

  lemma RowPrepares(cfg: Config, rs: RowStore, op: Op, d: Draw)
    requires RowInv(cfg, rs) && (Puts(Abs(rs), op) ==> ValidDrop(rs.slots, d.drop))
    ensures Puts(Abs(rs), op) ==> ValidVictim(cfg.cacheSize, Abs(rs).cache, VictimOf(rs.slots, d.drop))
    ensures var prepared := Prepare(cfg, Abs(rs), op, VictimOf(rs.slots, d.drop));
            prepared.Ready? ==>
              && RowInv(cfg, RowReady(cfg, rs, op, DropOf(rs, op, d.drop), prepared.store))
              && Abs(RowReady(cfg, rs, op, DropOf(rs, op, d.drop), prepared.store)) == prepared.store
              && (prepared.check.Some? ==> prepared.check.value < |prepared.store.shards|)
  {
    DropIsVictimIf(cfg, rs, op, d);
    PrepareIsRight(cfg, Abs(rs), op, VictimOf(rs.slots, d.drop));
    if Prepare(cfg, Abs(rs), op, VictimOf(rs.slots, d.drop)).Ready? {
      if Puts(Abs(rs), op) {
        RowPutReady(cfg, rs, op, d);
      } else {
        RowHitReady(cfg, rs, op, d);
      }
    }
  }

  lemma DropIsVictimIf(cfg: Config, rs: RowStore, op: Op, d: Draw)
    requires RowInv(cfg, rs) && (Puts(Abs(rs), op) ==> ValidDrop(rs.slots, d.drop))
    ensures Puts(Abs(rs), op) ==> ValidVictim(cfg.cacheSize, Abs(rs).cache, VictimOf(rs.slots, d.drop))
  {
    if Puts(Abs(rs), op) {
      DropIsVictim(cfg.hash, rs.slots, d.drop);
    }
  }

  lemma RowPutReady(cfg: Config, rs: RowStore, op: Op, d: Draw)
    requires RowInv(cfg, rs) && Puts(Abs(rs), op) && ValidDrop(rs.slots, d.drop)
    requires Prepare(cfg, Abs(rs), op, VictimOf(rs.slots, d.drop)).Ready?
    ensures var ready := Prepare(cfg, Abs(rs), op, VictimOf(rs.slots, d.drop)).store;
            && RowOk(cfg.hash, RowReady(cfg, rs, op, d.drop, ready).slots)
            && Contents(RowReady(cfg, rs, op, d.drop, ready).slots) == ready.cache
  {
    PutCaches(cfg, Abs(rs), op, VictimOf(rs.slots, d.drop));
    var ptr := WriteOf(rs.shards[ShardOf(cfg, Abs(rs), op.key)], op).1;
    CachesKnown(rs.shards[ShardOf(cfg, Abs(rs), op.key)], op);
    RowPutIsPut(cfg.hash, rs.slots, Entry(op.key, ptr), d.drop);
  }

  lemma RowHitReady(cfg: Config, rs: RowStore, op: Op, d: Draw)
    requires RowInv(cfg, rs) && !Puts(Abs(rs), op)
    ensures var ready := Prepare(cfg, Abs(rs), op, VictimOf(rs.slots, d.drop)).store;
            && RowOk(cfg.hash, RowReady(cfg, rs, op, None, ready).slots)
            && Contents(RowReady(cfg, rs, op, None, ready).slots) == ready.cache
  {
    HitChangesOwnEntry(cfg, Abs(rs), op, VictimOf(rs.slots, d.drop));
    var ready := Prepare(cfg, Abs(rs), op, VictimOf(rs.slots, d.drop)).store;
    RowOverwriteIsPut(cfg.hash, rs.slots, Entry(op.key, Lookup(ready.cache, op.key)));
  }

  ghost predicate RowStep(cfg: Config, rs: RowStore, op: Op, d: Draw, out: RowOutcome)
    requires RowInv(cfg, rs)
  {
    && (Puts(Abs(rs), op) ==> ValidDrop(rs.slots, d.drop))
    && (RowPrepares(cfg, rs, op, d);
        match Prepare(cfg, Abs(rs), op, VictimOf(rs.slots, d.drop))
        case Overflow => out == RowStopped(ShardOverflow)
        case Ready(ready, check) =>
          RowFinishes(cfg, RowReady(cfg, rs, op, DropOf(rs, op, d.drop), ready), check, d, out))
  }

  ghost predicate RowFinishes(cfg: Config, ready: RowStore, check: Option<nat>, d: Draw, out: RowOutcome)
    requires RowInv(cfg, ready)
  {
    if Rebuilds(Abs(ready), check) then RowRebuild(cfg, ready, check.value, d, out) else out == RowRunning(ready)
  }

  /** The choices on the map that the draws stand for. */
  ghost function ChoiceOf(cfg: Config, rs: RowStore, op: Op, d: Draw): Choice
    requires RowInv(cfg, rs) && (Puts(Abs(rs), op) ==> ValidDrop(rs.slots, d.drop))
  {
    RowPrepares(cfg, rs, op, d);
    var victim := VictimOf(rs.slots, d.drop);
    var prepared := Prepare(cfg, Abs(rs), op, victim);
    if prepared.Ready? && Rebuilds(prepared.store, prepared.check) then
      var ready := RowReady(cfg, rs, op, DropOf(rs, op, d.drop), prepared.store);
      Choice(victim, d.entries, RebuildVictims(cfg, ready, prepared.check.value, d))
    else Choice(victim, d.entries, [])
  }

  /** Every step in the row is a step on the map. */
  lemma RowStepIsStep(cfg: Config, rs: RowStore, op: Op, d: Draw, out: RowOutcome)
    requires RowInv(cfg, rs) && RowStep(cfg, rs, op, d, out)
    ensures Step(cfg, Abs(rs), op, ChoiceOf(cfg, rs, op, d), AbsOutcome(out))
    ensures out.RowRunning? ==> RowInv(cfg, out.store)
  {
    RowPrepares(cfg, rs, op, d);
    var prepared := Prepare(cfg, Abs(rs), op, VictimOf(rs.slots, d.drop));
    if prepared.Ready? && Rebuilds(prepared.store, prepared.check) {
      var ready := RowReady(cfg, rs, op, DropOf(rs, op, d.drop), prepared.store);
      RowRebuildIsRebuild(cfg, ready, prepared.check.value, d, out, VictimOf(rs.slots, d.drop));
    }
    if out.RowRunning? {
      RowInvIsInv(cfg, rs);
      StepKeepsInv(cfg, Abs(rs), op, ChoiceOf(cfg, rs, op, d), Abs(out.store));
    }
  }

  /** The step loses a removal. */
  ghost predicate RowLoses(cfg: Config, rs: RowStore, op: Op, d: Draw, next: RowStore)
    requires RowInv(cfg, rs) && (Puts(Abs(rs), op) ==> ValidDrop(rs.slots, d.drop))
  {
    Loses(cfg, Abs(rs), op, ChoiceOf(cfg, rs, op, d), Abs(next))
  }

  /** Every key has the value it should have after the call, but a key whose removal the call
      forgot has the one its shard kept. */
  ghost predicate RowDoes(cfg: Config, rs: RowStore, op: Op, d: Draw, next: RowStore)
    requires RowInv(cfg, rs) && (Puts(Abs(rs), op) ==> ValidDrop(rs.slots, d.drop)) && |next.shards| > 0
  {
    var st, ch := Abs(rs), ChoiceOf(cfg, rs, op, d);
    forall k :: Meaning(cfg, Abs(next), k)
                == if Forgets(cfg, st, op, ch, Abs(next), k) then Kept(cfg, st, k) else ValueAfter(cfg, st, op, k)
  }

  /** What a call that runs through has done. */
  lemma RowStepIsRight(cfg: Config, rs: RowStore, op: Op, d: Draw, next: RowStore)
    requires RowInv(cfg, rs) && RowStep(cfg, rs, op, d, RowRunning(next))
    ensures RowInv(cfg, next) && |next.shards| == |rs.shards| && RowDoes(cfg, rs, op, d, next)
    ensures MeansAfter(cfg, Abs(rs), op, Abs(next)) <==> !RowLoses(cfg, rs, op, d, next)
    ensures CountersOk(Abs(rs)) ==> (CountersOk(Abs(next)) <==> !RowLoses(cfg, rs, op, d, next))
  {
    RowInvIsInv(cfg, rs);
    RowStepIsStep(cfg, rs, op, d, RowRunning(next));
    StepIsRight(cfg, Abs(rs), op, ChoiceOf(cfg, rs, op, d), Abs(next));
  }

  // ----- How a step comes about -----

  function RowWithShard(rs: RowStore, i: nat, s: ShardState): RowStore
    requires i < |rs.shards|
  {
    rs.(shards := rs.shards[i := s])
  }

  ghost function RowPushed(cfg: Config, rs: RowStore, displaced: Entry): RowStore
    requires |rs.shards| > 0
  {
    rs.(shards := Pushed(cfg, Abs(rs), displaced).shards)
  }

  /** The put, and the push of what it displaced. */
  ghost function RowPutAndPush(cfg: Config, rs: RowStore, e: Entry, drop: Option<nat>): RowStore
    requires |rs.slots| > 0 && |rs.shards| > 0
  {
    var put := rs.(slots := RowPut(cfg.hash, rs.slots, e, drop));
    if drop.Some? && drop.value < |rs.slots| then RowPushed(cfg, put, rs.slots[drop.value]) else put
  }

  /** The shard that is looked at after that. */
  function RowCheck(cfg: Config, rs: RowStore, drop: Option<nat>): Option<nat>
    requires |rs.shards| > 0
  {
    if drop.Some? && drop.value < |rs.slots| then Some(Home(cfg.hash, rs.slots[drop.value].key, |rs.shards|)) else None
  }

  /** The put, the push, and the rebuild after that. */
  ghost predicate RowPutEnds(cfg: Config, rs: RowStore, e: Entry, d: Draw, out: RowOutcome)
    requires |rs.slots| > 0 && |rs.shards| > 0
  {
    && RowInv(cfg, RowPutAndPush(cfg, rs, e, d.drop))
    && RowFinishes(cfg, RowPutAndPush(cfg, rs, e, d.drop), RowCheck(cfg, rs, d.drop), d, out)
  }

  lemma DisplacedIsCached(slots: seq<Entry>, drop: Option<nat>)
    requires DistinctKeys(slots) && ValidDrop(slots, drop) && drop.Some?
    ensures slots[drop.value] == Entry(slots[drop.value].key, Lookup(Contents(slots), slots[drop.value].key))
    ensures slots[drop.value].key in Contents(slots)
  {
    ContentsRepresents(slots);
  }

  /** On the map it is the put and the push. */
  lemma RowPutAndPushIs(cfg: Config, rs: RowStore, e: Entry, drop: Option<nat>)
    requires RowOk(cfg.hash, rs.slots) && |rs.slots| >= 4 && |rs.shards| > 0
    requires ValidDrop(rs.slots, drop) && !e.IsFree()
    ensures var prepared := PutAndPush(cfg, Abs(rs), e, VictimOf(rs.slots, drop));
            && prepared.Ready? && prepared.check == RowCheck(cfg, rs, drop)
            && Abs(RowPutAndPush(cfg, rs, e, drop)) == prepared.store
            && RowOk(cfg.hash, RowPutAndPush(cfg, rs, e, drop).slots)
  {
    RowPutIsPut(cfg.hash, rs.slots, e, drop);
    if drop.Some? {
      DisplacedIsCached(rs.slots, drop);
    }
  }

  /** A put of a pointer that fits its shard, with the push, keeps the invariant. */
  lemma RowPutKeepsInv(cfg: Config, rs: RowStore, e: Entry, drop: Option<nat>)
    requires RowOk(cfg.hash, rs.slots) && |rs.slots| == cfg.cacheSize >= 4 && |rs.shards| > 0
    requires ValidDrop(rs.slots, drop) && !e.IsFree() && Linked(cfg, Virtual(Abs(rs), e.key, e.ptr))
    requires !Lookup(Contents(rs.slots), e.key).IsDeleted()
    ensures RowInv(cfg, RowPutAndPush(cfg, rs, e, drop))
    ensures RowCheck(cfg, rs, drop).Some? ==> RowCheck(cfg, rs, drop).value < |RowPutAndPush(cfg, rs, e, drop).shards|
  {
    RowPutAndPushIs(cfg, rs, e, drop);
    if drop.Some? {
      DisplacedIsCached(rs.slots, drop);
    }
    PutAndPushIsTransparent(cfg, Abs(rs), e.key, e.ptr, VictimOf(rs.slots, drop));
  }

  lemma StepByPut(cfg: Config, rs: RowStore, op: Op, d: Draw, out: RowOutcome)
    requires RowInv(cfg, rs) && Puts(Abs(rs), op) && ValidDrop(rs.slots, d.drop)
    requires op.Add? ==> !Overflows(rs.shards[ShardOf(cfg, Abs(rs), op.key)], op.key)
    requires var i := ShardOf(cfg, Abs(rs), op.key);
             var (s, ptr) := WriteOf(rs.shards[i], op);
             RowPutEnds(cfg, RowWithShard(rs, i, s), Entry(op.key, ptr), d, out)
    ensures RowStep(cfg, rs, op, d, out)
  {
    var i := ShardOf(cfg, Abs(rs), op.key);
    var (s, ptr) := WriteOf(rs.shards[i], op);
    CachesKnown(rs.shards[i], op);
    PrepareIsPut(cfg, Abs(rs), op, VictimOf(rs.slots, d.drop));
    RowPrepares(cfg, rs, op, d);
    RowPutAndPushIs(cfg, RowWithShard(rs, i, s), Entry(op.key, ptr), d.drop);
    PutCaches(cfg, Abs(rs), op, VictimOf(rs.slots, d.drop));
  }

  lemma StepByOverflow(cfg: Config, rs: RowStore, op: Op, d: Draw)
    requires RowInv(cfg, rs) && op.Add? && Puts(Abs(rs), op) && ValidDrop(rs.slots, d.drop)
    requires Overflows(rs.shards[ShardOf(cfg, Abs(rs), op.key)], op.key)
    ensures RowStep(cfg, rs, op, d, RowStopped(ShardOverflow))
  {
  }

  /** The slot answers for the key: it carries the key, or is free if the cache does not know
      the key. */
  ghost predicate AnswersFor(slots: seq<Entry>, slot: nat, key: Key) {
    && slot < |slots|
    && slots[slot].ptr == Lookup(Contents(slots), key)
    && (!slots[slot].IsFree() ==> slots[slot].key == key)
  }

  /** A call that finds its key cached: it writes the slot of the key at most. */
  lemma StepByHit(cfg: Config, rs: RowStore, op: Op, d: Draw, slot: nat, e: Entry, shards: seq<ShardState>)
    requires RowInv(cfg, rs) && !Puts(Abs(rs), op) && AnswersFor(rs.slots, slot, op.key)
    requires var prepared := Prepare(cfg, Abs(rs), op, VictimOf(rs.slots, d.drop));
             && prepared.Ready? && prepared.store.shards == shards
             && e == Entry(op.key, Lookup(prepared.store.cache, op.key))
    ensures RowInv(cfg, RowStore(rs.slots[slot := e], shards))
    ensures var check := Prepare(cfg, Abs(rs), op, VictimOf(rs.slots, d.drop)).check;
            && (check.Some? ==> check.value < |shards|)
            && forall out :: RowFinishes(cfg, RowStore(rs.slots[slot := e], shards), check, d, out) ==>
                 RowStep(cfg, rs, op, d, out)
  {
    RowPrepares(cfg, rs, op, d);
    PutInPlace(cfg.hash, rs.slots, e, None, slot);
  }

  /** An add of a key cached as present. */
  lemma StepByOverwrite(cfg: Config, rs: RowStore, key: Key, value: Value, d: Draw, slot: nat)
    requires RowInv(cfg, rs) && AnswersFor(rs.slots, slot, key) && rs.slots[slot].ptr.IsPresent()
    ensures rs.slots[slot].ptr.GetIndex() < |rs.shards[ShardOf(cfg, Abs(rs), key)].values|
    ensures var i := ShardOf(cfg, Abs(rs), key);
            RowStep(cfg, rs, Add(key, value), d,
                    RowRunning(RowWithShard(rs, i, WriteDirectly(rs.shards[i], rs.slots[slot].ptr, value))))
  {
    CachedIsIndexed(cfg, Abs(rs), key);
    var i := ShardOf(cfg, Abs(rs), key);
    var shards := rs.shards[i := WriteDirectly(rs.shards[i], rs.slots[slot].ptr, value)];
    StepByHit(cfg, rs, Add(key, value), d, slot, rs.slots[slot], shards);
    assert rs.slots[slot := rs.slots[slot]] == rs.slots;
  }

  /** The store after the mark of a pending removal was taken back. */
  function MarkedBack(rs: RowStore, i: nat, slot: nat): RowStore
    requires i < |rs.shards| && slot < |rs.slots| && rs.slots[slot].ptr.IsDeleted()
  {
    RowStore(rs.slots[slot := Entry(rs.slots[slot].key, rs.slots[slot].ptr.SetValuePresent(true))],
             rs.shards[i := rs.shards[i].(alive := Increment(rs.shards[i].alive))])
  }

  /** An add of a key whose removal is pending. */
  lemma StepByRevive(cfg: Config, rs: RowStore, key: Key, value: Value, d: Draw, slot: nat)
    requires RowInv(cfg, rs) && AnswersFor(rs.slots, slot, key) && rs.slots[slot].ptr.IsDeleted()
    ensures rs.slots[slot].ptr.GetIndex() < |rs.shards[ShardOf(cfg, Abs(rs), key)].values| <= SHARD_CAPACITY
    ensures var i := ShardOf(cfg, Abs(rs), key);
            var written := RowWithShard(rs, i, WriteDirectly(rs.shards[i], rs.slots[slot].ptr, value));
            RowStep(cfg, rs, Add(key, value), d, RowRunning(MarkedBack(written, i, slot)))
  {
    CachedIsIndexed(cfg, Abs(rs), key);
    var i, ptr := ShardOf(cfg, Abs(rs), key), rs.slots[slot].ptr;
    var written := WriteDirectly(rs.shards[i], ptr, value);
    var s := written.(alive := Increment(written.alive));
    StepByHit(cfg, rs, Add(key, value), d, slot, Entry(key, ptr.SetValuePresent(true)), rs.shards[i := s]);
    assert rs.shards[i := written][i := s] == rs.shards[i := s];
  }

  lemma CachedIsIndexed(cfg: Config, st: Store, key: Key)
    requires Linked(cfg, st) && (Lookup(st.cache, key).IsPresent() || Lookup(st.cache, key).IsDeleted())
    ensures Lookup(st.cache, key).GetIndex() < |st.shards[ShardOf(cfg, st, key)].values| <= SHARD_CAPACITY
  {
    assert Coherent(st.cache[key], IndexPtr(cfg, st, key));
  }

  /** A get of a key the cache knows, or a remove of one it knows to be gone. */
  lemma StepByKnown(cfg: Config, rs: RowStore, op: Op, d: Draw, slot: nat)
    requires RowInv(cfg, rs) && AnswersFor(rs.slots, slot, op.key)
    requires var ptr := rs.slots[slot].ptr;
             (op.Get? && !ptr.IsEmpty()) || (op.Remove? && (ptr.IsDeleted() || ptr.IsNonexistent()))
    ensures RowStep(cfg, rs, op, d, RowRunning(rs))
  {
    StepByHit(cfg, rs, op, d, slot, rs.slots[slot], rs.shards);
    assert rs.slots[slot := rs.slots[slot]] == rs.slots;
  }

  /** The store after the removal of a key cached as present was marked. */
  function Marked(cfg: Config, rs: RowStore, key: Key, slot: nat): RowStore
    requires |rs.shards| > 0 && slot < |rs.slots| && rs.slots[slot].ptr.IsPresent()
  {
    var i := Home(cfg.hash, key, |rs.shards|);
    RowStore(rs.slots[slot := Entry(key, rs.slots[slot].ptr.SetValuePresent(false))],
             rs.shards[i := rs.shards[i].(alive := Decrement(rs.shards[i].alive))])
  }

  lemma MarkedKeepsInv(cfg: Config, rs: RowStore, key: Key, slot: nat)
    requires RowInv(cfg, rs) && AnswersFor(rs.slots, slot, key) && rs.slots[slot].ptr.IsPresent()
    ensures RowInv(cfg, Marked(cfg, rs, key, slot))
  {
    var marked := Marked(cfg, rs, key, slot);
    StepByHit(cfg, rs, Remove(key), Draw(None, [], []), slot, marked.slots[slot], marked.shards);
  }

  lemma StepByMark(cfg: Config, rs: RowStore, key: Key, slot: nat, d: Draw, out: RowOutcome)
    requires RowInv(cfg, rs) && AnswersFor(rs.slots, slot, key) && rs.slots[slot].ptr.IsPresent()
    requires RowInv(cfg, Marked(cfg, rs, key, slot))
    requires RowFinishes(cfg, Marked(cfg, rs, key, slot), Some(Home(cfg.hash, key, |rs.shards|)), d, out)
    ensures RowStep(cfg, rs, Remove(key), d, out)
  {
    var marked := Marked(cfg, rs, key, slot);
    StepByHit(cfg, rs, Remove(key), d, slot, marked.slots[slot], marked.shards);
  }

  // ----- Runs -----

  datatype RowTrace = RowTrace(cfg: Config, stores: seq<RowStore>, ops: seq<Op>, draws: seq<Draw>,
                               results: seq<Option<Value>>)

  predicate InitialRow(cfg: Config, rs: RowStore) {
    && |rs.shards| > 0 && |rs.slots| == cfg.cacheSize >= 4
    && (forall j :: 0 <= j < |rs.slots| ==> rs.slots[j] == FREE_ENTRY)
    && (forall i :: 0 <= i < |rs.shards| ==> rs.shards[i] == EMPTY_SHARD)
  }

  /** A run of the program: its states are rows, and its choices draws. */
  ghost predicate IsRowRun(t: RowTrace) {
    && |t.stores| == |t.ops| + 1 && |t.draws| == |t.results| == |t.ops|
    && InitialRow(t.cfg, t.stores[0])
    && forall n :: 0 < n <= |t.ops| ==> RowCallInto(t, n)
  }

  type RowRun = t: RowTrace | IsRowRun(t)
    ghost witness RowTrace(Config((_, _) => 0, 4, true), [NEW_ROW_STORE], [], [], [])

  const NEW_ROW_STORE := RowStore([FREE_ENTRY, FREE_ENTRY, FREE_ENTRY, FREE_ENTRY], [EMPTY_SHARD])

  ghost predicate RowCallInto(t: RowTrace, n: nat)
    requires 0 < n <= |t.ops| == |t.draws| == |t.results| && |t.stores| == |t.ops| + 1
  {
    RowInv(t.cfg, t.stores[n - 1]) ==>
      && RowStep(t.cfg, t.stores[n - 1], t.ops[n - 1], t.draws[n - 1], RowRunning(t.stores[n]))
      && t.results[n - 1] == Result(t.cfg, Abs(t.stores[n - 1]), t.ops[n - 1])
  }

  lemma InitialRowIsRight(cfg: Config, rs: RowStore)
    requires InitialRow(cfg, rs)
    ensures Initial(Abs(rs)) && RowInv(cfg, rs) && Used(rs.slots) == 0
  {
    AllFree(rs.slots);
    ContentsIsTheOne(rs.slots, map[]);
    assert rs.shards == seq(|rs.shards|, _ => EMPTY_SHARD);
    InitialIsRight(cfg, Abs(rs));
  }

  lemma {:induction false} RowRunKeepsInv(t: RowTrace, n: nat)
    requires IsRowRun(t) && n <= |t.ops|
    ensures RowInv(t.cfg, t.stores[n])
  {
    if n == 0 {
      InitialRowIsRight(t.cfg, t.stores[0]);
    } else {
      RowRunKeepsInv(t, n - 1);
      assert RowCallInto(t, n);
      RowStepIsStep(t.cfg, t.stores[n - 1], t.ops[n - 1], t.draws[n - 1], RowRunning(t.stores[n]));
    }
  }

  ghost function ChoiceAt(t: RowTrace, i: nat): Choice
    requires i < |t.ops| == |t.draws| && |t.stores| == |t.ops| + 1
  {
    var rs, op, d := t.stores[i], t.ops[i], t.draws[i];
    if RowInv(t.cfg, rs) && (Puts(Abs(rs), op) ==> ValidDrop(rs.slots, d.drop)) then ChoiceOf(t.cfg, rs, op, d)
    else Choice(None, [], [])
  }

  ghost function AbsTrace(t: RowTrace): Trace
    requires |t.ops| == |t.draws| && |t.stores| == |t.ops| + 1
  {
    Trace(t.cfg, seq(|t.stores|, i requires 0 <= i < |t.stores| => Abs(t.stores[i])), t.ops,
          seq(|t.ops|, i requires 0 <= i < |t.ops| => ChoiceAt(t, i)), t.results)
  }

  /** Every run of the program is a run of the store on a map. */
  lemma RowRunIsRun(t: RowTrace)
    requires IsRowRun(t)
    ensures IsRun(AbsTrace(t))
  {
    var a := AbsTrace(t);
    InitialRowIsRight(t.cfg, t.stores[0]);
    assert Initial(a.stores[0]);
    forall n | 0 < n <= |a.ops|
      ensures CallInto(a, n)
    {
      AbsTraceAt(t, n);
      RowCallIsCall(t, a, n);
    }
  }

  lemma AbsTraceAt(t: RowTrace, n: nat)
    requires |t.ops| == |t.draws| && |t.stores| == |t.ops| + 1 && 0 < n <= |t.ops|
    ensures AbsTrace(t).stores[n - 1] == Abs(t.stores[n - 1]) && AbsTrace(t).stores[n] == Abs(t.stores[n])
    ensures AbsTrace(t).choices[n - 1] == ChoiceAt(t, n - 1)
  {
  }

  lemma RowCallIsCall(t: RowTrace, a: Trace, n: nat)
    requires IsRowRun(t) && 0 < n <= |t.ops| && a.cfg == t.cfg && a.ops == t.ops && a.results == t.results
    requires |a.stores| == |t.stores| && |a.choices| == |t.ops|
    requires a.stores[n - 1] == Abs(t.stores[n - 1]) && a.stores[n] == Abs(t.stores[n])
    requires a.choices[n - 1] == ChoiceAt(t, n - 1)
    ensures CallInto(a, n)
  {
    RowCallSteps(t, n);
  }

  lemma RowCallSteps(t: RowTrace, n: nat)
    requires IsRowRun(t) && 0 < n <= |t.ops|
    ensures Linked(t.cfg, Abs(t.stores[n - 1]))
    ensures Step(t.cfg, Abs(t.stores[n - 1]), t.ops[n - 1], ChoiceAt(t, n - 1), Running(Abs(t.stores[n])))
    ensures t.results[n - 1] == Result(t.cfg, Abs(t.stores[n - 1]), t.ops[n - 1])
  {
    RowRunKeepsInv(t, n - 1);
    assert RowCallInto(t, n);
    RowStepIsStep(t.cfg, t.stores[n - 1], t.ops[n - 1], t.draws[n - 1], RowRunning(t.stores[n]));
  }

  /** The program answers as a plain map: with assertions for as long as a run lasts, and
      without them as long as no removal is lost. */
  lemma ProgramRefinesMap(t: RowTrace)
    requires IsRowRun(t)
    ensures IsRun(AbsTrace(t))
    ensures t.cfg.asserts || LosesNothing(AbsTrace(t)) ==>
              forall i :: 0 <= i < |t.ops| ==> t.results[i] == Answer(MapAfter(t.ops[..i]), t.ops[i])
  {
    RowRunIsRun(t);
    var run: Run := AbsTrace(t);
    if t.cfg.asserts {
      CheckedRunRefinesMap(run);
    } else if LosesNothing(run) {
      RunRefinesMap(run);
    }
  }

  // ----- A run, one call after the other -----

  /** The last state of a trace. */
  function Last(t: RowTrace): RowStore
    requires |t.stores| == |t.ops| + 1
  {
    t.stores[|t.ops|]
  }

  ghost function Extended(t: RowTrace, op: Op, d: Draw, next: RowStore): RowTrace
    requires |t.stores| == |t.ops| + 1 && |Last(t).shards| > 0
  {
    RowTrace(t.cfg, t.stores + [next], t.ops + [op], t.draws + [d],
             t.results + [Result(t.cfg, Abs(Last(t)), op)])
  }

  /** A run goes on with a step from its last state. */
  lemma Extend(t: RowTrace, op: Op, d: Draw, next: RowStore)
    requires IsRowRun(t) && RowInv(t.cfg, Last(t))
    requires RowStep(t.cfg, Last(t), op, d, RowRunning(next))
    ensures IsRowRun(Extended(t, op, d, next)) && RowInv(t.cfg, next)
  {
    var t' := Extended(t, op, d, next);
    forall n | 0 < n <= |t'.ops|
      ensures RowCallInto(t', n)
    {
      if n <= |t.ops| {
        EarlierCall(t, t', n);
      } else {
        LastCall(t, op, d, next, n);
      }
    }
    RowStepIsStep(t.cfg, Last(t), op, d, RowRunning(next));
  }

  lemma EarlierCall(t: RowTrace, t': RowTrace, n: nat)
    requires IsRowRun(t) && 0 < n <= |t.ops| && t'.cfg == t.cfg
    requires |t'.stores| == |t'.ops| + 1 && |t'.draws| == |t'.results| == |t'.ops|
    requires t.stores <= t'.stores && t.ops <= t'.ops && t.draws <= t'.draws && t.results <= t'.results
    ensures RowCallInto(t', n)
  {
    assert RowCallInto(t, n);
    assert t'.stores[n - 1] == t.stores[n - 1] && t'.stores[n] == t.stores[n];
  }

  lemma LastCall(t: RowTrace, op: Op, d: Draw, next: RowStore, n: nat)
    requires IsRowRun(t) && n == |t.ops| + 1 && RowInv(t.cfg, Last(t))
    requires RowStep(t.cfg, Last(t), op, d, RowRunning(next))
    ensures RowCallInto(Extended(t, op, d, next), n)
  {
    var t' := Extended(t, op, d, next);
    assert t'.stores[n - 1] == Last(t) && t'.stores[n] == next;
    assert t'.ops[n - 1] == op && t'.draws[n - 1] == d;
  }

  lemma GoOn(t: RowTrace, op: Op, d: Draw, next: RowStore) returns (t': RowTrace)
    requires IsRowRun(t) && RowInv(t.cfg, Last(t)) && RowStep(t.cfg, Last(t), op, d, RowRunning(next))
    ensures IsRowRun(t') && t'.cfg == t.cfg && t'.ops == t.ops + [op] && Last(t') == next && RowInv(t.cfg, next)
    ensures t'.results == t.results + [Result(t.cfg, Abs(Last(t)), op)] && t'.stores[0] == t.stores[0]
  {
    Extend(t, op, d, next);
    t' := Extended(t, op, d, next);
  }
}
