/** Exactly when a call ends the program, as conditions on the store before the call. */
module StoreStops {
  import opened KeyValueTypes
  import opened ShardModel
  import opened RebuildModel
  import opened StoreModel
  import opened StoreInvariant
  import opened StoreSteps
  import opened StoreRebuild
  import opened StoreRuns

  // ----- What a call finds when it comes to its rebuild, in terms of the store before -----

  /** What the cache knows of the call's own key by then. */
  function OwnTypeThen(cfg: Config, st: Store, op: Op): PtrType
    requires |st.shards| > 0
  {
    var cached := Lookup(st.cache, op.key).GetType();
    match op
    case Add(_, _) => PRESENT
    case Get(key) =>
      if cached != EMPTY then cached else if IndexPtr(cfg, st, key).IsPresent() then PRESENT else NONEXISTENT
    case Remove(_) => if cached == PRESENT || cached == DELETED then DELETED else NONEXISTENT
  }

  /** What the cache knows of any key by then. */
  function TypeThen(cfg: Config, st: Store, op: Op, victim: Option<Key>, k: Key): PtrType
    requires |st.shards| > 0
  {
    if k == op.key then OwnTypeThen(cfg, st, op)
    else if Puts(st, op) && victim == Some(k) then EMPTY
    else Lookup(st.cache, k).GetType()
  }

  predicate IndexedThen(cfg: Config, st: Store, op: Op, j: nat, k: Key)
    requires j < |st.shards|
  {
    k in st.shards[j].index || (op.Add? && k == op.key && j == ShardOf(cfg, st, op.key))
  }

  function SlotsThen(cfg: Config, st: Store, op: Op, j: nat): nat
    requires j < |st.shards|
  {
    |st.shards[j].values| + One(op.Add? && j == ShardOf(cfg, st, op.key) && op.key !in st.shards[j].index)
  }

  function AliveThen(cfg: Config, st: Store, op: Op, j: nat): nat
    requires j < |st.shards|
  {
    var s := st.shards[j];
    if j != ShardOf(cfg, st, op.key) then s.alive
    else
      var live := Live(st.cache, s.index, op.key);
      if op.Add? && !live then Increment(s.alive) else if op.Remove? && live then Decrement(s.alive) else s.alive
  }

  /** The shard that the call looks at last. */
  function Checked(cfg: Config, st: Store, op: Op, victim: Option<Key>): Option<nat>
    requires |st.shards| > 0
  {
    if Puts(st, op) then (if victim.Some? then Some(ShardOf(cfg, st, victim.value)) else None)
    else if op.Remove? && Lookup(st.cache, op.key).IsPresent() then Some(ShardOf(cfg, st, op.key))
    else None
  }

  predicate RefusedBy(cfg: Config, st: Store, op: Op)
    requires |st.shards| > 0
  {
    var index := st.shards[ShardOf(cfg, st, op.key)].index;
    op.Add? && op.key !in index && |index| == SHARD_CAPACITY
  }

  /** The call comes to the rebuild of shard `j`. */
  predicate ComesToRebuild(cfg: Config, st: Store, op: Op, victim: Option<Key>, j: nat)
    requires |st.shards| > 0
  {
    && !RefusedBy(cfg, st, op) && Checked(cfg, st, op, victim) == Some(j) && j < |st.shards|
    && SlotsThen(cfg, st, op, j) % 256 > 2 * AliveThen(cfg, st, op, j)
  }

  /** An indexed key of the shard is known to be gone. */
  ghost predicate KnownGoneThen(cfg: Config, st: Store, op: Op, victim: Option<Key>, j: nat)
    requires j < |st.shards|
  {
    exists k :: k in st.shards[j].index && TypeThen(cfg, st, op, victim, k) == NONEXISTENT
  }

  /** Some pointer has to be written back. */
  ghost predicate WritesBackThen(cfg: Config, st: Store, op: Op, victim: Option<Key>, j: nat)
    requires j < |st.shards|
  {
    exists k :: IndexedThen(cfg, st, op, j, k) && TypeThen(cfg, st, op, victim, k) in {PRESENT, DELETED}
  }

  /** The cache is over its load: it was, and the put took an entry out and another one in. */
  predicate HeavyThen(cfg: Config, st: Store, op: Op, victim: Option<Key>) {
    Heavy(cfg.cacheSize, st.cache) && (Puts(st, op) ==> op.key !in st.cache || victim == Some(op.key))
  }

  // ----- That is what it finds -----

  predicate FitsPut(cfg: Config, st: Store, op: Op, victim: Option<Key>) {
    Puts(st, op) && victim.Some? ==> victim.value in st.cache
  }

  lemma RefusedIsOverflow(cfg: Config, st: Store, op: Op, victim: Option<Key>)
    requires Linked(cfg, st)
    ensures Prepare(cfg, st, op, victim).Overflow? <==> RefusedBy(cfg, st, op)
  {
    if op.key in st.cache {
      assert Coherent(st.cache[op.key], IndexPtr(cfg, st, op.key));
    }
  }

  lemma CheckedThen(cfg: Config, st: Store, op: Op, victim: Option<Key>)
    requires Linked(cfg, st) && FitsPut(cfg, st, op, victim) && Prepare(cfg, st, op, victim).Ready?
    ensures Prepare(cfg, st, op, victim).check == Checked(cfg, st, op, victim)
  {
    if Puts(st, op) {
      MissIsRight(cfg, st, op, victim);
    } else {
      HitIsRight(cfg, st, op);
    }
  }

  /** What a write, a removal or a mark makes of a shard. */
  lemma WrittenThen(cfg: Config, st: Store, op: Op)
    requires Linked(cfg, st) && Puts(st, op)
    requires op.Add? ==> !Overflows(st.shards[ShardOf(cfg, st, op.key)], op.key)
    ensures var j := ShardOf(cfg, st, op.key);
            var s := WriteOf(st.shards[j], op).0;
            && (forall k :: k in s.index <==> IndexedThen(cfg, st, op, j, k))
            && |s.values| == SlotsThen(cfg, st, op, j) && s.alive == AliveThen(cfg, st, op, j)
  {
    if op.key in st.cache {
      assert Coherent(st.cache[op.key], IndexPtr(cfg, st, op.key));
    }
  }

  /** A push changes flags only. */
  lemma PushedThen(cfg: Config, st: Store, displaced: Entry, j: nat)
    requires j < |st.shards|
    ensures var s, t := st.shards[j], Pushed(cfg, st, displaced).shards[j];
            t.index.Keys == s.index.Keys && t.values == s.values && t.alive == s.alive
  {
  }

  lemma ShardsThen(cfg: Config, st: Store, op: Op, victim: Option<Key>, j: nat)
    requires Linked(cfg, st) && Prepare(cfg, st, op, victim).Ready? && j < |st.shards|
    ensures var ready := Prepare(cfg, st, op, victim).store;
            && j < |ready.shards|
            && (forall k :: k in ready.shards[j].index <==> IndexedThen(cfg, st, op, j, k))
            && |ready.shards[j].values| == SlotsThen(cfg, st, op, j)
            && ready.shards[j].alive == AliveThen(cfg, st, op, j)
  {
    if Puts(st, op) {
      MissedShardsThen(cfg, st, op, victim, j);
    } else {
      HitShardsThen(cfg, st, op, victim, j);
    }
  }

  lemma MissedShardsThen(cfg: Config, st: Store, op: Op, victim: Option<Key>, j: nat)
    requires Linked(cfg, st) && Prepare(cfg, st, op, victim).Ready? && j < |st.shards| && Puts(st, op)
    ensures var ready := Prepare(cfg, st, op, victim).store;
            && j < |ready.shards|
            && (forall k :: k in ready.shards[j].index <==> IndexedThen(cfg, st, op, j, k))
            && |ready.shards[j].values| == SlotsThen(cfg, st, op, j)
            && ready.shards[j].alive == AliveThen(cfg, st, op, j)
  {
    var (s, ptr) := WriteOf(st.shards[ShardOf(cfg, st, op.key)], op);
    WrittenThen(cfg, st, op);
    PrepareIsPut(cfg, st, op, victim);
    var put := WithShard(cfg, st, op.key, s).(cache := CachePut(st.cache, Entry(op.key, ptr), victim));
    if victim.Some? {
      PushedThen(cfg, put, Entry(victim.value, Lookup(st.cache, victim.value)), j);
    }
  }

  lemma HitShardsThen(cfg: Config, st: Store, op: Op, victim: Option<Key>, j: nat)
    requires Linked(cfg, st) && Prepare(cfg, st, op, victim).Ready? && j < |st.shards| && !Puts(st, op)
    ensures var ready := Prepare(cfg, st, op, victim).store;
            && j < |ready.shards|
            && (forall k :: k in ready.shards[j].index <==> IndexedThen(cfg, st, op, j, k))
            && |ready.shards[j].values| == SlotsThen(cfg, st, op, j)
            && ready.shards[j].alive == AliveThen(cfg, st, op, j)
  {
    assert Coherent(st.cache[op.key], IndexPtr(cfg, st, op.key));
  }

  lemma TypesThen(cfg: Config, st: Store, op: Op, victim: Option<Key>, k: Key)
    requires Linked(cfg, st) && Prepare(cfg, st, op, victim).Ready?
    ensures Lookup(Prepare(cfg, st, op, victim).store.cache, k).GetType() == TypeThen(cfg, st, op, victim, k)
  {
    if Puts(st, op) {
      PutCaches(cfg, st, op, victim);
      PutTypeThen(cfg, st, op);
      AfterPut(st.cache, Entry(op.key, WriteOf(st.shards[ShardOf(cfg, st, op.key)], op).1), victim, k);
    } else {
      HitChangesOwnEntry(cfg, st, op, victim);
      HitTypeThen(cfg, st, op, victim);
    }
  }

  lemma AfterPut(cache: map<Key, Ptr>, e: Entry, victim: Option<Key>, k: Key)
    ensures Lookup(CachePut(cache, e, victim), k)
            == if k == e.key then e.ptr else if victim == Some(k) then EMPTY_PTR else Lookup(cache, k)
  {
  }

  lemma PutTypeThen(cfg: Config, st: Store, op: Op)
    requires Linked(cfg, st) && Puts(st, op)
    requires op.Add? ==> !Overflows(st.shards[ShardOf(cfg, st, op.key)], op.key)
    ensures WriteOf(st.shards[ShardOf(cfg, st, op.key)], op).1.GetType() == OwnTypeThen(cfg, st, op)
  {
    if op.Add? {
      WriteValueIsLocal(st.shards[ShardOf(cfg, st, op.key)], op.key, op.value);
    }
  }

  lemma HitTypeThen(cfg: Config, st: Store, op: Op, victim: Option<Key>)
    requires Linked(cfg, st) && !Puts(st, op)
    ensures Prepare(cfg, st, op, victim).Ready?
    ensures Lookup(Prepare(cfg, st, op, victim).store.cache, op.key).GetType() == OwnTypeThen(cfg, st, op)
  {
    assert Coherent(st.cache[op.key], IndexPtr(cfg, st, op.key));
  }

  lemma LoadThen(cfg: Config, st: Store, op: Op, victim: Option<Key>)
    requires Inv(cfg, st) && Prepare(cfg, st, op, victim).Ready?
    requires Puts(st, op) ==> ValidVictim(cfg.cacheSize, st.cache, victim) && victim.Some?
    ensures Heavy(cfg.cacheSize, Prepare(cfg, st, op, victim).store.cache) <==> HeavyThen(cfg, st, op, victim)
  {
    if Puts(st, op) {
      PutCaches(cfg, st, op, victim);
      var ptr := WriteOf(st.shards[ShardOf(cfg, st, op.key)], op).1;
      SizeOfPut(st.cache, Entry(op.key, ptr), victim.value);
    } else {
      HitKeepsCachedKeys(cfg, st, op, victim);
    }
  }

  lemma SizeOfPut(cache: map<Key, Ptr>, e: Entry, victim: Key)
    requires victim in cache
    ensures |CachePut(cache, e, Some(victim))|
            == if e.key !in cache || victim == e.key then |cache| else |cache| - 1
  {
    var without := cache - {victim};
    assert |without| == |cache| - 1 by {
      assert without.Keys == cache.Keys - {victim};
      assert |without.Keys| == |cache.Keys| - 1;
    }
    var put := without[e.key := e.ptr];
    assert put.Keys == without.Keys + {e.key};
    assert |put| == |put.Keys| && |without| == |without.Keys|;
  }

  // ----- When a call ends the program -----

  lemma ReadyThen(cfg: Config, st: Store, op: Op, victim: Option<Key>, j: nat)
    requires Inv(cfg, st) && Prepare(cfg, st, op, victim).Ready?
    requires Puts(st, op) ==> ValidVictim(cfg.cacheSize, st.cache, victim)
    requires Checked(cfg, st, op, victim) == Some(j)
    ensures var ready := Prepare(cfg, st, op, victim).store;
            && j < |ready.shards| == |st.shards|
            && (RebuildRequired(ready.shards[j]) <==> ComesToRebuild(cfg, st, op, victim, j))
            && (KnownGone(ready, j) <==> KnownGoneThen(cfg, st, op, victim, j))
            && (HasUpdates(ready, j) <==> WritesBackThen(cfg, st, op, victim, j))
            && (Heavy(cfg.cacheSize, ready.cache) <==> HeavyThen(cfg, st, op, victim))
  {
    var ready := Prepare(cfg, st, op, victim).store;
    RefusedIsOverflow(cfg, st, op, victim);
    PrepareIsRight(cfg, st, op, victim);
    ShardsThen(cfg, st, op, victim, j);
    LoadThen(cfg, st, op, victim);
    forall k
      ensures Lookup(ready.cache, k).GetType() == TypeThen(cfg, st, op, victim, k)
    {
      TypesThen(cfg, st, op, victim, k);
    }
    GoneThen(cfg, st, op, victim, j, ready);
    UpdatesThen(cfg, st, op, victim, j, ready);
  }

  lemma GoneThen(cfg: Config, st: Store, op: Op, victim: Option<Key>, j: nat, ready: Store)
    requires j < |st.shards| && j < |ready.shards|
    requires forall k :: k in ready.shards[j].index <==> IndexedThen(cfg, st, op, j, k)
    requires forall k :: Lookup(ready.cache, k).GetType() == TypeThen(cfg, st, op, victim, k)
    ensures KnownGone(ready, j) <==> KnownGoneThen(cfg, st, op, victim, j)
  {
    if KnownGone(ready, j) {
      var k :| k in ready.shards[j].index && Lookup(ready.cache, k).IsNonexistent();
      assert TypeThen(cfg, st, op, victim, k) == NONEXISTENT;
    }
    if KnownGoneThen(cfg, st, op, victim, j) {
      var k :| k in st.shards[j].index && TypeThen(cfg, st, op, victim, k) == NONEXISTENT;
      assert IndexedThen(cfg, st, op, j, k) && Lookup(ready.cache, k).IsNonexistent();
    }
  }

  lemma UpdatesThen(cfg: Config, st: Store, op: Op, victim: Option<Key>, j: nat, ready: Store)
    requires j < |st.shards| && j < |ready.shards|
    requires forall k :: k in ready.shards[j].index <==> IndexedThen(cfg, st, op, j, k)
    requires forall k :: Lookup(ready.cache, k).GetType() == TypeThen(cfg, st, op, victim, k)
    ensures HasUpdates(ready, j) <==> WritesBackThen(cfg, st, op, victim, j)
  {
    if HasUpdates(ready, j) {
      var k :| k in ready.shards[j].index && Rewrites(Lookup(ready.cache, k));
      assert IndexedThen(cfg, st, op, j, k) && TypeThen(cfg, st, op, victim, k) in {PRESENT, DELETED};
    }
    if WritesBackThen(cfg, st, op, victim, j) {
      var k :| IndexedThen(cfg, st, op, j, k) && TypeThen(cfg, st, op, victim, k) in {PRESENT, DELETED};
      assert k in ready.shards[j].index && Rewrites(Lookup(ready.cache, k));
    }
  }

  /** The call runs into the assertion on a key known to be gone. */
  ghost predicate MeetsKnownGone(cfg: Config, st: Store, op: Op, victim: Option<Key>)
    requires |st.shards| > 0
  {
    var check := Checked(cfg, st, op, victim);
    check.Some? && ComesToRebuild(cfg, st, op, victim, check.value) && KnownGoneThen(cfg, st, op, victim, check.value)
  }

  /** The call runs into a write-back that displaces. */
  ghost predicate MeetsDisplacement(cfg: Config, st: Store, op: Op, victim: Option<Key>)
    requires |st.shards| > 0
  {
    var check := Checked(cfg, st, op, victim);
    && check.Some? && ComesToRebuild(cfg, st, op, victim, check.value)
    && HeavyThen(cfg, st, op, victim) && WritesBackThen(cfg, st, op, victim, check.value)
  }

  /** Exactly when a call ends the program, and at which assertion, in terms of the store before
      it and of the key its put displaces. */
  lemma CallStops(cfg: Config, st: Store, op: Op, ch: Choice, out: Outcome)
    requires Inv(cfg, st) && Step(cfg, st, op, ch, out)
    ensures out == Stopped(ShardOverflow) <==> RefusedBy(cfg, st, op)
    ensures out == Stopped(IndexAssertion) <==> cfg.asserts && MeetsKnownGone(cfg, st, op, ch.victim)
    ensures out == Stopped(WriteBackAssertion)
            <==> cfg.asserts && MeetsDisplacement(cfg, st, op, ch.victim) && !MeetsKnownGone(cfg, st, op, ch.victim)
  {
    RefusedIsOverflow(cfg, st, op, ch.victim);
    PrepareIsRight(cfg, st, op, ch.victim);
    var prepared := Prepare(cfg, st, op, ch.victim);
    if prepared.Ready? {
      CheckedThen(cfg, st, op, ch.victim);
      if prepared.check.Some? {
        CheckedStops(cfg, st, op, ch, out, prepared.check.value);
      }
    }
  }

  lemma CheckedStops(cfg: Config, st: Store, op: Op, ch: Choice, out: Outcome, j: nat)
    requires Inv(cfg, st) && Step(cfg, st, op, ch, out) && Prepare(cfg, st, op, ch.victim).Ready?
    requires Prepare(cfg, st, op, ch.victim).check == Some(j) == Checked(cfg, st, op, ch.victim)
    ensures out != Stopped(ShardOverflow)
    ensures out == Stopped(IndexAssertion)
            <==> cfg.asserts && ComesToRebuild(cfg, st, op, ch.victim, j) && KnownGoneThen(cfg, st, op, ch.victim, j)
    ensures out == Stopped(WriteBackAssertion)
            <==> && cfg.asserts && ComesToRebuild(cfg, st, op, ch.victim, j)
                 && !KnownGoneThen(cfg, st, op, ch.victim, j)
                 && HeavyThen(cfg, st, op, ch.victim) && WritesBackThen(cfg, st, op, ch.victim, j)
  {
    ReadyThen(cfg, st, op, ch.victim, j);
    PrepareIsRight(cfg, st, op, ch.victim);
    var ready := Prepare(cfg, st, op, ch.victim).store;
    if RebuildRequired(ready.shards[j]) {
      RebuildStops(cfg, ready, j, ch, out);
    }
  }

  /** So a remove of a key cached as present ends the program exactly if assertions are on, it
      makes the shard ask for a rebuild, and the cache is over its load or knows an indexed key
      of the shard to be gone. */
  lemma RemoveStops(cfg: Config, st: Store, key: Key, ch: Choice, out: Outcome)
    requires Inv(cfg, st) && CountersOk(st) && Lookup(st.cache, key).IsPresent() && Step(cfg, st, Remove(key), ch, out)
    ensures var i := ShardOf(cfg, st, key);
            out.Stopped? <==>
            && cfg.asserts
            && |st.shards[i].values| > 2 * (st.shards[i].alive - 1)
            && (Heavy(cfg.cacheSize, st.cache) || KnownGone(st, i))
  {
    var i := ShardOf(cfg, st, key);
    CallStops(cfg, st, Remove(key), ch, out);
    RemoveComesToRebuild(cfg, st, key, ch.victim, i);
    RemoveFinds(cfg, st, key, ch.victim, i);
  }

  lemma RemoveComesToRebuild(cfg: Config, st: Store, key: Key, victim: Option<Key>, i: nat)
    requires Linked(cfg, st) && CountersOk(st) && Lookup(st.cache, key).IsPresent() && i == ShardOf(cfg, st, key)
    ensures Checked(cfg, st, Remove(key), victim) == Some(i)
    ensures ComesToRebuild(cfg, st, Remove(key), victim, i) <==> |st.shards[i].values| > 2 * (st.shards[i].alive - 1)
  {
    RemoveCountsThen(cfg, st, key, i);
  }

  lemma RemoveCountsThen(cfg: Config, st: Store, key: Key, i: nat)
    requires Linked(cfg, st) && CountersOk(st) && Lookup(st.cache, key).IsPresent() && i == ShardOf(cfg, st, key)
    ensures AliveThen(cfg, st, Remove(key), i) == st.shards[i].alive - 1
    ensures SlotsThen(cfg, st, Remove(key), i) % 256 == |st.shards[i].values|
  {
    assert Coherent(st.cache[key], IndexPtr(cfg, st, key));
    AliveIsBounded(cfg, st, key);
    FitsByte(st.shards[i]);
    assert SlotsThen(cfg, st, Remove(key), i) == |st.shards[i].values|;
  }

  lemma FitsByte(s: ShardState)
    requires ShardInv(s)
    ensures |s.values| % 256 == |s.values|
  {
  }

  lemma RemoveFinds(cfg: Config, st: Store, key: Key, victim: Option<Key>, i: nat)
    requires Linked(cfg, st) && Lookup(st.cache, key).IsPresent() && i == ShardOf(cfg, st, key)
    ensures KnownGoneThen(cfg, st, Remove(key), victim, i) <==> KnownGone(st, i)
    ensures WritesBackThen(cfg, st, Remove(key), victim, i)
    ensures HeavyThen(cfg, st, Remove(key), victim) <==> Heavy(cfg.cacheSize, st.cache)
  {
    assert Coherent(st.cache[key], IndexPtr(cfg, st, key));
    assert IndexedThen(cfg, st, Remove(key), i, key) && TypeThen(cfg, st, Remove(key), victim, key) == DELETED;
    if k :| k in st.shards[i].index && Lookup(st.cache, k).IsNonexistent() {
      assert TypeThen(cfg, st, Remove(key), victim, k) == NONEXISTENT;
    }
  }
}
