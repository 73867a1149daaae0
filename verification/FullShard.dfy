/** A run that fills a shard: the next new key for it ends the program. */
module FullShard {
  import opened KeyValueTypes
  import opened CacheRow
  import opened ShardModel
  import opened StoreModel
  import opened StoreSteps
  import opened StoreRuns
  import opened StoreRow
  import opened StoreStops
  import opened StoreEnabled

  /** The shard holds these keys, all the others are empty, and no removal was ever asked for. */
  ghost predicate Filled(st: Store, i: nat, keys: set<Key>) {
    && i < |st.shards| && st.shards[i].index.Keys == keys
    && |st.shards[i].values| == |keys| == st.shards[i].alive
    && (forall j :: 0 <= j < |st.shards| && j != i ==> st.shards[j] == EMPTY_SHARD)
    && (forall k :: k in st.cache ==> st.cache[k].IsPresent())
  }

  /** One more key, whatever is drawn. */
  lemma AddFills(cfg: Config, st: Store, key: Key, value: Value, ch: Choice, out: Outcome, i: nat, keys: set<Key>)
    requires Linked(cfg, st) && Filled(st, i, keys) && key !in keys && |keys| < SHARD_CAPACITY
    requires ShardOf(cfg, st, key) == i && Step(cfg, st, Add(key, value), ch, out)
    ensures out.Running? && Filled(out.store, i, keys + {key})
  {
    var s, op := st.shards[i], Add(key, value);
    NewKeyIsNotCached(cfg, st, key, i, keys);
    WriteValueIsLocal(s, key, value);
    PrepareIsPut(cfg, st, op, ch.victim);
    PutFills(cfg, st, key, value, ch.victim, i, keys);
  }

  lemma NewKeyIsNotCached(cfg: Config, st: Store, key: Key, i: nat, keys: set<Key>)
    requires Linked(cfg, st) && Filled(st, i, keys) && key !in keys && ShardOf(cfg, st, key) == i
    ensures key !in st.cache
  {
    assert forall k :: k in st.cache ==> Coherent(st.cache[k], IndexPtr(cfg, st, k));
  }

  lemma AppendFills(s: ShardState, keys: set<Key>, key: Key, value: Value)
    requires ShardInv(s) && s.index.Keys == keys && |s.values| == |keys| == s.alive
    requires key !in keys && |keys| < SHARD_CAPACITY
    ensures !Overflows(s, key)
    ensures var (t, ptr) := WriteValue(s, key, value);
            && ptr.IsPresent() && t.index.Keys == keys + {key}
            && |t.values| == |keys + {key}| == t.alive
  {
    assert |s.index| == |s.index.Keys|;
    NewKeyIsAppended(s, key, value);
    SmallCounter(s.alive);
  }

  lemma NewKeyIsAppended(s: ShardState, key: Key, value: Value)
    requires ShardInv(s) && key !in s.index && |s.index| < SHARD_CAPACITY
    ensures WriteValue(s, key, value) == (AppendNew(s, key, value), NextPtr(s)) && NextPtr(s).IsPresent()
  {
    AppendNewIsLocal(s, key, value);
  }

  lemma SmallCounter(alive: nat)
    requires alive < SHARD_CAPACITY
    ensures Increment(alive) == alive + 1
  {
  }

  /** What the put displaces is present, so nothing is pushed, and no shard asks for a rebuild. */
  lemma PutFills(cfg: Config, st: Store, key: Key, value: Value, victim: Option<Key>, i: nat, keys: set<Key>)
    requires Linked(cfg, st) && Filled(st, i, keys) && key !in keys && |keys| < SHARD_CAPACITY
    requires ShardOf(cfg, st, key) == i && (victim.Some? ==> victim.value in st.cache)
    requires !Overflows(st.shards[i], key)
    ensures var (s, ptr) := WriteValue(st.shards[i], key, value);
            var prepared := PutAndPush(cfg, WithShard(cfg, st, key, s), Entry(key, ptr), victim);
            && prepared.Ready? && Filled(prepared.store, i, keys + {key})
            && !Rebuilds(prepared.store, prepared.check)
  {
    AppendFills(st.shards[i], keys, key, value);
    var (s, ptr) := WriteValue(st.shards[i], key, value);
    var store := Store(CachePut(st.cache, Entry(key, ptr), victim), st.shards[i := s]);
    assert PutAndPush(cfg, WithShard(cfg, st, key, s), Entry(key, ptr), victim).store == store;
    StaysPresent(st.cache, Entry(key, ptr), victim);
    assert Filled(store, i, keys + {key});
    if victim.Some? {
      FilledAsksNothing(store, i, keys + {key}, ShardOf(cfg, st, victim.value));
    }
  }

  lemma StaysPresent(cache: map<Key, Ptr>, e: Entry, victim: Option<Key>)
    requires e.ptr.IsPresent() && forall k :: k in cache ==> cache[k].IsPresent()
    ensures forall k :: k in CachePut(cache, e, victim) ==> CachePut(cache, e, victim)[k].IsPresent()
  {
  }

  lemma FilledAsksNothing(st: Store, i: nat, keys: set<Key>, j: nat)
    requires Filled(st, i, keys) && |keys| <= SHARD_CAPACITY && j < |st.shards|
    ensures !RebuildRequired(st.shards[j])
  {
  }

  function Adds(keys: seq<Key>, n: nat, value: Value): seq<Op>
    requires n <= |keys|
  {
    seq(n, j requires 0 <= j < n => Add(keys[j], value))
  }

  /** Distinct keys of one shard. */
  ghost predicate OfOneShard(cfg: Config, keys: seq<Key>, shardNumber: nat, i: nat)
    requires shardNumber > 0
  {
    && (forall j, k :: 0 <= j < k < |keys| ==> keys[j] != keys[k])
    && (forall j :: 0 <= j < |keys| ==> Home(cfg.hash, keys[j], shardNumber) == i)
  }

  lemma FillingCall(cfg: Config, rs: RowStore, key: Key, value: Value, i: nat, keys: set<Key>)
    returns (d: Draw, next: RowStore)
    requires RowInv(cfg, rs) && Filled(Abs(rs), i, keys) && key !in keys && |keys| < SHARD_CAPACITY
    requires ShardOf(cfg, Abs(rs), key) == i
    ensures RowStep(cfg, rs, Add(key, value), d, RowRunning(next))
    ensures |next.shards| == |rs.shards| && Filled(Abs(next), i, keys + {key})
  {
    var out;
    NeverFull(cfg.hash, rs.slots);
    var drop := SomeDrop(rs.slots);
    d, out := StepIsEnabled(cfg, rs, Add(key, value), drop);
    RowStepIsStep(cfg, rs, Add(key, value), d, out);
    var ch := ChoiceOf(cfg, rs, Add(key, value), d);
    AddFills(cfg, Abs(rs), key, value, ch, AbsOutcome(out), i, keys);
    next := out.store;
    RowInvIsInv(cfg, rs);
    StepKeepsInv(cfg, Abs(rs), Add(key, value), ch, Abs(next));
  }

  lemma ExtendByAdd(t: RowTrace, key: Key, value: Value, i: nat, keys: set<Key>) returns (t': RowTrace)
    requires IsRowRun(t) && RowInv(t.cfg, Last(t)) && Filled(Abs(Last(t)), i, keys)
    requires key !in keys && |keys| < SHARD_CAPACITY && ShardOf(t.cfg, Abs(Last(t)), key) == i
    ensures IsRowRun(t') && t'.cfg == t.cfg && t'.ops == t.ops + [Add(key, value)] && RowInv(t.cfg, Last(t'))
    ensures |Last(t').shards| == |Last(t).shards| && Filled(Abs(Last(t')), i, keys + {key})
  {
    var d, next := FillingCall(t.cfg, Last(t), key, value, i, keys);
    t' := GoOn(t, Add(key, value), d, next);
  }

  lemma AddsNext(keys: seq<Key>, n: nat, value: Value)
    requires 0 < n <= |keys|
    ensures Adds(keys, n, value) == Adds(keys, n - 1, value) + [Add(keys[n - 1], value)]
  {
  }

  lemma {:induction false} FillingRun(cfg: Config, keys: seq<Key>, value: Value, shardNumber: nat, i: nat, n: nat)
    returns (t: RowTrace, known: set<Key>)
    requires cfg.cacheSize >= 4 && i < shardNumber && OfOneShard(cfg, keys, shardNumber, i)
    requires n <= |keys| && n <= SHARD_CAPACITY
    ensures IsRowRun(t) && t.cfg == cfg && t.ops == Adds(keys, n, value) && RowInv(cfg, Last(t))
    ensures |Last(t).shards| == shardNumber && |known| == n && Filled(Abs(Last(t)), i, known)
    ensures forall j :: n <= j < |keys| ==> keys[j] !in known
  {
    if n == 0 {
      var rs := RowStore(seq(cfg.cacheSize, _ => FREE_ENTRY), seq(shardNumber, _ => EMPTY_SHARD));
      t, known := RowTrace(cfg, [rs], [], [], []), {};
      InitialRowIsRight(cfg, rs);
    } else {
      t, known := FillingRun(cfg, keys, value, shardNumber, i, n - 1);
      t := ExtendByAdd(t, keys[n - 1], value, i, known);
      known := known + {keys[n - 1]};
      AddsNext(keys, n, value);
    }
  }

  /** After 45 adds of keys of one shard an add of one more ends the program, whatever is drawn. */
  lemma FullShardStops(cfg: Config, keys: seq<Key>, value: Value, shardNumber: nat, i: nat) returns (t: RowTrace)
    requires cfg.cacheSize >= 4 && i < shardNumber && OfOneShard(cfg, keys, shardNumber, i)
    requires |keys| == SHARD_CAPACITY + 1
    ensures IsRowRun(t) && t.cfg == cfg && t.ops == Adds(keys, SHARD_CAPACITY, value) && RowInv(cfg, Last(t))
    ensures forall d, out :: RowStep(cfg, Last(t), Add(keys[SHARD_CAPACITY], value), d, out) ==>
              out == RowStopped(ShardOverflow)
  {
    var known;
    t, known := FillingRun(cfg, keys, value, shardNumber, i, SHARD_CAPACITY);
    var rs, op := Last(t), Add(keys[SHARD_CAPACITY], value);
    RowInvIsInv(cfg, rs);
    forall d, out | RowStep(cfg, rs, op, d, out)
      ensures out == RowStopped(ShardOverflow)
    {
      RowStepIsStep(cfg, rs, op, d, out);
      CallStops(cfg, Abs(rs), op, ChoiceOf(cfg, rs, op, d), AbsOutcome(out));
    }
  }
}
