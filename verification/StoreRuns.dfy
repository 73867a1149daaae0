/** One call, and whole runs of the store against a plain map. */
module StoreRuns {
  import opened KeyValueTypes
  import opened ShardModel
  import opened StoreModel
  import opened StoreInvariant
  import opened StoreSteps
  import opened StoreRebuild

  // ----- One call -----

  /** The call looks at a shard last and finds that it has to be rebuilt. */
  predicate Rebuilds(ready: Store, check: Option<nat>) {
    check.Some? && check.value < |ready.shards| && RebuildRequired(ready.shards[check.value])
  }

  ghost predicate Step(cfg: Config, st: Store, op: Op, ch: Choice, out: Outcome)
    requires Linked(cfg, st)
  {
    && (Puts(st, op) ==> ValidVictim(cfg.cacheSize, st.cache, ch.victim))
    && (PrepareIsRight(cfg, st, op, ch.victim);
        match Prepare(cfg, st, op, ch.victim)
        case Overflow => out == Stopped(ShardOverflow)
        case Ready(ready, check) =>
          Finishes(cfg, ready, check, ch, out))
  }

  /** The end of a call: the rebuild, if one is asked for. */
  ghost predicate Finishes(cfg: Config, ready: Store, check: Option<nat>, ch: Choice, out: Outcome)
    requires Linked(cfg, ready)
  {
    if Rebuilds(ready, check) then RebuildStep(cfg, ready, check.value, ch, out) else out == Running(ready)
  }

  /** The call ran through a rebuild that forgot the removal of this key. */
  ghost predicate Forgets(cfg: Config, st: Store, op: Op, ch: Choice, next: Store, k: Key)
    requires Linked(cfg, st)
  {
    var prepared := Prepare(cfg, st, op, ch.victim);
    && prepared.Ready? && Rebuilds(prepared.store, prepared.check)
    && Forgotten(cfg, prepared.store, prepared.check.value, next.cache, k)
  }

  /** The call ran through a rebuild that lost a removal. */
  ghost predicate Loses(cfg: Config, st: Store, op: Op, ch: Choice, next: Store)
    requires Linked(cfg, st)
  {
    var prepared := Prepare(cfg, st, op, ch.victim);
    && prepared.Ready? && Rebuilds(prepared.store, prepared.check)
    && RemovalLost(cfg, prepared.store, prepared.check.value, next.cache)
  }

  lemma LosesByForgetting(cfg: Config, st: Store, op: Op, ch: Choice, next: Store, k: Key)
    requires Linked(cfg, st) && Forgets(cfg, st, op, ch, next, k)
    ensures Loses(cfg, st, op, ch, next)
  {
  }

  lemma SomeForgotten(cfg: Config, st: Store, op: Op, ch: Choice, next: Store) returns (k: Key)
    requires Linked(cfg, st) && Loses(cfg, st, op, ch, next)
    ensures Forgets(cfg, st, op, ch, next, k)
  {
    var prepared := Prepare(cfg, st, op, ch.victim);
    k :| Forgotten(cfg, prepared.store, prepared.check.value, next.cache, k);
  }

  lemma PrepareKeepsLoad(cfg: Config, st: Store, op: Op, victim: Option<Key>)
    requires Inv(cfg, st) && (Puts(st, op) ==> ValidVictim(cfg.cacheSize, st.cache, victim))
    ensures var prepared := Prepare(cfg, st, op, victim);
            prepared.Ready? ==> 3 * |prepared.store.cache| <= 2 * cfg.cacheSize + 3
  {
    if !Puts(st, op) {
      HitKeepsCachedKeys(cfg, st, op, victim);
    } else if Prepare(cfg, st, op, victim).Ready? {
      PutCaches(cfg, st, op, victim);
      PutKeepsLoad(cfg.cacheSize, st.cache,
                   Entry(op.key, WriteOf(st.shards[ShardOf(cfg, st, op.key)], op).1), victim);
    }
  }

  lemma PutCaches(cfg: Config, st: Store, op: Op, victim: Option<Key>)
    requires Linked(cfg, st) && Puts(st, op)
    requires op.Add? ==> !Overflows(st.shards[ShardOf(cfg, st, op.key)], op.key)
    ensures Prepare(cfg, st, op, victim).Ready?
    ensures Prepare(cfg, st, op, victim).store.cache
            == CachePut(st.cache, Entry(op.key, WriteOf(st.shards[ShardOf(cfg, st, op.key)], op).1), victim)
  {
    PrepareIsPut(cfg, st, op, victim);
  }

  lemma HitKeepsCachedKeys(cfg: Config, st: Store, op: Op, victim: Option<Key>)
    requires Linked(cfg, st) && !Puts(st, op)
    ensures var prepared := Prepare(cfg, st, op, victim);
            prepared.Ready? && prepared.store.cache.Keys == st.cache.Keys && |prepared.store.cache| == |st.cache|
  {
    var ready := Prepare(cfg, st, op, victim).store;
    assert ready.cache.Keys == st.cache.Keys;
    assert |ready.cache.Keys| == |st.cache.Keys|;
  }

  /** A call that finds its key cached changes at most that key's pointer. */
  lemma HitChangesOwnEntry(cfg: Config, st: Store, op: Op, victim: Option<Key>)
    requires Linked(cfg, st) && !Puts(st, op)
    ensures op.key in st.cache && Prepare(cfg, st, op, victim).Ready?
    ensures var cache := Prepare(cfg, st, op, victim).store.cache;
            op.key in cache && !cache[op.key].IsEmpty() && cache == st.cache[op.key := cache[op.key]]
  {
    assert Coherent(st.cache[op.key], IndexPtr(cfg, st, op.key));
    if Prepare(cfg, st, op, victim).store.cache == st.cache {
      assert st.cache == st.cache[op.key := st.cache[op.key]];
    }
  }

  /** The key of the call itself is never forgotten by it. */
  lemma OwnKeyIsNotForgotten(cfg: Config, st: Store, op: Op, ch: Choice, next: Store)
    requires Linked(cfg, st) && (Puts(st, op) ==> ValidVictim(cfg.cacheSize, st.cache, ch.victim))
    ensures !Forgets(cfg, st, op, ch, next, op.key)
  {
    if Puts(st, op) {
      if Prepare(cfg, st, op, ch.victim).Ready? {
        PutCaches(cfg, st, op, ch.victim);
        CachesKnown(st.shards[ShardOf(cfg, st, op.key)], op);
      }
    } else {
      HitIsRight(cfg, st, op);
    }
  }

  /** A put caches a present pointer, or that the key is gone. */
  lemma CachesKnown(s: ShardState, op: Op)
    requires ShardInv(s) && (op.Add? ==> !Overflows(s, op.key))
    ensures WriteOf(s, op).1.IsPresent() || WriteOf(s, op).1.IsNonexistent()
  {
    if op.Add? {
      WriteValueIsLocal(s, op.key, op.value);
    }
  }

  /** Only a key whose removal was pending can be forgotten, and its shard still keeps a value. */
  lemma ForgottenIsKept(cfg: Config, st: Store, op: Op, ch: Choice, next: Store, k: Key)
    requires Linked(cfg, st) && (Puts(st, op) ==> ValidVictim(cfg.cacheSize, st.cache, ch.victim))
    requires Forgets(cfg, st, op, ch, next, k)
    ensures k != op.key && Lookup(st.cache, k).IsDeleted() && Kept(cfg, st, k).Some?
    ensures Kept(cfg, Prepare(cfg, st, op, ch.victim).store, k) == Kept(cfg, st, k)
    ensures ValueAfter(cfg, st, op, k) == None
  {
    OwnKeyIsNotForgotten(cfg, st, op, ch, next);
    PrepareIsRight(cfg, st, op, ch.victim);
    PendingIsKept(cfg, st, k);
  }

  /** A call that runs through keeps the invariant, and gives every key the value it should
      have exactly if it loses no removal: a key whose removal it forgets has the value again
      that its shard kept. */
  lemma StepIsRight(cfg: Config, st: Store, op: Op, ch: Choice, next: Store)
    requires Inv(cfg, st) && Step(cfg, st, op, ch, Running(next))
    ensures |next.shards| == |st.shards| && Inv(cfg, next)
    ensures forall k :: Meaning(cfg, next, k)
                        == if Forgets(cfg, st, op, ch, next, k) then Kept(cfg, st, k) else ValueAfter(cfg, st, op, k)
    ensures MeansAfter(cfg, st, op, next) <==> !Loses(cfg, st, op, ch, next)
    ensures CountersOk(st) ==> (CountersOk(next) <==> !Loses(cfg, st, op, ch, next))
  {
    StepKeepsInv(cfg, st, op, ch, next);
    forall k
      ensures Meaning(cfg, next, k)
              == if Forgets(cfg, st, op, ch, next, k) then Kept(cfg, st, k) else ValueAfter(cfg, st, op, k)
    {
      StepMeans(cfg, st, op, ch, next, k);
    }
    LossIsSeen(cfg, st, op, ch, next);
    if CountersOk(st) {
      StepCountsExactly(cfg, st, op, ch, next);
    }
  }

  lemma LossIsSeen(cfg: Config, st: Store, op: Op, ch: Choice, next: Store)
    requires Inv(cfg, st) && Step(cfg, st, op, ch, Running(next))
    ensures MeansAfter(cfg, st, op, next) <==> !Loses(cfg, st, op, ch, next)
  {
    StepKeepsInv(cfg, st, op, ch, next);
    if Loses(cfg, st, op, ch, next) {
      var k := SomeForgotten(cfg, st, op, ch, next);
      ForgottenIsKept(cfg, st, op, ch, next, k);
      StepMeans(cfg, st, op, ch, next, k);
    } else {
      forall k
        ensures Meaning(cfg, next, k) == ValueAfter(cfg, st, op, k)
      {
        StepMeans(cfg, st, op, ch, next, k);
        if Forgets(cfg, st, op, ch, next, k) {
          LosesByForgetting(cfg, st, op, ch, next, k);
        }
      }
    }
  }

  lemma StepKeepsInv(cfg: Config, st: Store, op: Op, ch: Choice, next: Store)
    requires Inv(cfg, st) && Step(cfg, st, op, ch, Running(next))
    ensures |next.shards| == |st.shards| && Inv(cfg, next)
  {
    PrepareIsRight(cfg, st, op, ch.victim);
    PrepareKeepsLoad(cfg, st, op, ch.victim);
    var prepared := Prepare(cfg, st, op, ch.victim);
    if Rebuilds(prepared.store, prepared.check) {
      RebuildStepIsRight(cfg, prepared.store, prepared.check.value, ch, next);
    }
  }

  lemma StepMeans(cfg: Config, st: Store, op: Op, ch: Choice, next: Store, k: Key)
    requires Inv(cfg, st) && Step(cfg, st, op, ch, Running(next))
    ensures |next.shards| == |st.shards|
    ensures Meaning(cfg, next, k)
            == if Forgets(cfg, st, op, ch, next, k) then Kept(cfg, st, k) else ValueAfter(cfg, st, op, k)
  {
    PrepareIsRight(cfg, st, op, ch.victim);
    var prepared := Prepare(cfg, st, op, ch.victim);
    assert Meaning(cfg, prepared.store, k) == ValueAfter(cfg, st, op, k);
    if Rebuilds(prepared.store, prepared.check) {
      PrepareKeepsLoad(cfg, st, op, ch.victim);
      RebuildStepIsRight(cfg, prepared.store, prepared.check.value, ch, next);
      if Forgets(cfg, st, op, ch, next, k) {
        ForgottenIsKept(cfg, st, op, ch, next, k);
      }
    }
  }

  /** The counters stay right exactly if no removal is lost. */
  lemma StepCountsExactly(cfg: Config, st: Store, op: Op, ch: Choice, next: Store)
    requires Inv(cfg, st) && CountersOk(st) && Step(cfg, st, op, ch, Running(next))
    ensures CountersOk(next) <==> !Loses(cfg, st, op, ch, next)
  {
    PrepareCounts(cfg, st, op, ch.victim);
    var prepared := Prepare(cfg, st, op, ch.victim);
    if Rebuilds(prepared.store, prepared.check) {
      PrepareKeepsLoad(cfg, st, op, ch.victim);
      RebuildStepCounts(cfg, prepared.store, prepared.check.value, ch, next);
    }
  }

  lemma PrepareCounts(cfg: Config, st: Store, op: Op, victim: Option<Key>)
    requires Linked(cfg, st) && CountersOk(st)
    requires Puts(st, op) && victim.Some? ==> victim.value in st.cache
    ensures var prepared := Prepare(cfg, st, op, victim);
            prepared.Ready? ==> Linked(cfg, prepared.store) && CountersOk(prepared.store)
  {
    PrepareIsRight(cfg, st, op, victim);
  }

  /** With assertions no call that runs through loses a removal. */
  lemma AssertionsLoseNothing(cfg: Config, st: Store, op: Op, ch: Choice, next: Store)
    requires Linked(cfg, st) && Step(cfg, st, op, ch, Running(next)) && cfg.asserts
    ensures !Loses(cfg, st, op, ch, next)
  {
    PrepareIsRight(cfg, st, op, ch.victim);
    var prepared := Prepare(cfg, st, op, ch.victim);
    if Rebuilds(prepared.store, prepared.check) {
      NothingLost(cfg, prepared.store, prepared.check.value, ch, next);
    }
  }

  /** A call that begins below the cache's load loses nothing in any build. */
  lemma LightCallLosesNothing(cfg: Config, st: Store, op: Op, ch: Choice, next: Store)
    requires Linked(cfg, st) && Step(cfg, st, op, ch, Running(next)) && !Heavy(cfg.cacheSize, st.cache)
    ensures !Loses(cfg, st, op, ch, next)
  {
    PrepareIsRight(cfg, st, op, ch.victim);
    var prepared := Prepare(cfg, st, op, ch.victim);
    if Puts(st, op) {
      if prepared.Ready? {
        PrepareIsPut(cfg, st, op, ch.victim);
      }
    } else {
      HitKeepsCachedKeys(cfg, st, op, ch.victim);
      if Rebuilds(prepared.store, prepared.check) {
        NothingLost(cfg, prepared.store, prepared.check.value, ch, next);
      }
    }
  }

  // ----- Runs -----

  function Apply(m: map<Key, Value>, op: Op): map<Key, Value> {
    match op
    case Add(key, value) => m[key := value]
    case Get(_) => m
    case Remove(key) => m - {key}
  }

  function Answer(m: map<Key, Value>, op: Op): Option<Value> {
    if op.Get? && op.key in m then Some(m[op.key]) else None
  }

  /** The map the calls make of the empty one. */
  function MapAfter(ops: seq<Op>): map<Key, Value> {
    if ops == [] then map[] else Apply(MapAfter(ops[..|ops| - 1]), ops[|ops| - 1])
  }

  predicate Binds(m: map<Key, Value>, k: Key, value: Option<Value>) {
    value == if k in m then Some(m[k]) else None
  }

  /** The store means the map. */
  ghost predicate Means(cfg: Config, st: Store, m: map<Key, Value>) {
    |st.shards| > 0 && forall k :: Binds(m, k, Meaning(cfg, st, k))
  }

  predicate Initial(st: Store) {
    |st.shards| > 0 && st == Store(map[], seq(|st.shards|, _ => EMPTY_SHARD))
  }

  /** The stores between the calls, the calls, the choices made and the results. */
  datatype Trace = Trace(cfg: Config, stores: seq<Store>, ops: seq<Op>, choices: seq<Choice>,
                         results: seq<Option<Value>>)

  /** A run from the empty store. That its calls are made on stores that keep the invariant is
      no restriction (`RunKeepsInv`). */
  ghost predicate IsRun(t: Trace) {
    && |t.stores| == |t.ops| + 1 && |t.choices| == |t.results| == |t.ops|
    && Initial(t.stores[0])
    && forall n :: 0 < n <= |t.ops| ==> CallInto(t, n)
  }

  type Run = t: Trace | IsRun(t) ghost witness Trace(Config((_, _) => 0, 0, true), [EMPTY_STORE], [], [], [])

  const EMPTY_STORE := Store(map[], [EMPTY_SHARD])

  /** The call that leads to state `n`. */
  ghost predicate CallInto(t: Trace, n: nat)
    requires 0 < n <= |t.ops| == |t.choices| == |t.results| && |t.stores| == |t.ops| + 1
  {
    Inv(t.cfg, t.stores[n - 1]) ==>
      && Step(t.cfg, t.stores[n - 1], t.ops[n - 1], t.choices[n - 1], Running(t.stores[n]))
      && t.results[n - 1] == Result(t.cfg, t.stores[n - 1], t.ops[n - 1])
  }

  /** The call that leads to state `n` loses a removal. */
  ghost predicate LosesInto(run: Run, n: nat)
    requires 0 < n <= |run.ops|
  {
    && Linked(run.cfg, run.stores[n - 1])
    && Loses(run.cfg, run.stores[n - 1], run.ops[n - 1], run.choices[n - 1], run.stores[n])
  }

  lemma InitialIsRight(cfg: Config, st: Store)
    requires Initial(st)
    ensures Inv(cfg, st) && CountersOk(st) && Means(cfg, st, map[])
  {
  }

  lemma CallKeepsInv(run: Run, n: nat)
    requires 0 < n <= |run.ops| && Inv(run.cfg, run.stores[n - 1])
    ensures Inv(run.cfg, run.stores[n])
  {
    assert CallInto(run, n);
    StepKeepsInv(run.cfg, run.stores[n - 1], run.ops[n - 1], run.choices[n - 1], run.stores[n]);
  }

  /** Every state of every run keeps the invariant, whatever was lost on the way. */
  lemma {:induction false} RunKeepsInv(run: Run, n: nat)
    requires n <= |run.ops|
    ensures Inv(run.cfg, run.stores[n])
  {
    if n == 0 {
      InitialIsRight(run.cfg, run.stores[0]);
    } else {
      RunKeepsInv(run, n - 1);
      CallKeepsInv(run, n);
    }
  }

  lemma CallCounts(run: Run, n: nat)
    requires 0 < n <= |run.ops| && Inv(run.cfg, run.stores[n - 1])
    requires CountersOk(run.stores[n - 1])
    ensures CountersOk(run.stores[n]) <==> !LosesInto(run, n)
  {
    assert CallInto(run, n);
    StepCountsExactly(run.cfg, run.stores[n - 1], run.ops[n - 1], run.choices[n - 1], run.stores[n]);
  }

  /** The counters are right as long as no removal is lost. */
  lemma {:induction false} RunCounts(run: Run, n: nat)
    requires n <= |run.ops| && forall i :: 0 < i <= n ==> !LosesInto(run, i)
    ensures CountersOk(run.stores[n])
  {
    if n == 0 {
      InitialIsRight(run.cfg, run.stores[0]);
    } else {
      RunCounts(run, n - 1);
      RunKeepsInv(run, n - 1);
      CallCounts(run, n);
    }
  }

  /** What a call that loses removals brings back: the values the shards kept. */
  ghost function Returned(cfg: Config, st: Store, op: Op, ch: Choice, next: Store): map<Key, Value>
    requires Linked(cfg, st)
  {
    map k | k in st.cache && Forgets(cfg, st, op, ch, next, k) && Kept(cfg, st, k).Some? :: Kept(cfg, st, k).value
  }

  /** A plain map follows the calls. */
  lemma ApplyFollows(cfg: Config, st: Store, op: Op, m: map<Key, Value>, k: Key)
    requires Means(cfg, st, m)
    ensures Binds(Apply(m, op), k, ValueAfter(cfg, st, op, k))
  {
    assert Binds(m, k, Meaning(cfg, st, k));
  }

  lemma StepFollows(cfg: Config, st: Store, op: Op, ch: Choice, next: Store, m: map<Key, Value>)
    requires Inv(cfg, st) && Step(cfg, st, op, ch, Running(next)) && Means(cfg, st, m)
    ensures Means(cfg, next, Apply(m, op) + Returned(cfg, st, op, ch, next))
  {
    StepKeepsInv(cfg, st, op, ch, next);
    forall k
      ensures Binds(Apply(m, op) + Returned(cfg, st, op, ch, next), k, Meaning(cfg, next, k))
    {
      StepMeans(cfg, st, op, ch, next, k);
      ApplyFollows(cfg, st, op, m, k);
      ReturnedBinds(cfg, st, op, ch, next, k);
    }
  }

  lemma ReturnedBinds(cfg: Config, st: Store, op: Op, ch: Choice, next: Store, k: Key)
    requires Linked(cfg, st) && Step(cfg, st, op, ch, Running(next))
    ensures var returned := Returned(cfg, st, op, ch, next);
            if Forgets(cfg, st, op, ch, next, k) then Binds(returned, k, Kept(cfg, st, k)) && k in returned
            else k !in returned
  {
    if Forgets(cfg, st, op, ch, next, k) {
      ForgottenIsKept(cfg, st, op, ch, next, k);
      assert k in st.cache;
    }
  }

  lemma ResultIsAnswer(cfg: Config, st: Store, op: Op, m: map<Key, Value>)
    requires Means(cfg, st, m)
    ensures Result(cfg, st, op) == Answer(m, op)
  {
    assert Binds(m, op.key, Meaning(cfg, st, op.key));
  }

  /** The plain map of a run's calls, with what losses bring back. */
  ghost function TrueMap(run: Run, n: nat): map<Key, Value>
    requires n <= |run.ops|
  {
    if n == 0 then map[]
    else
      var m := Apply(TrueMap(run, n - 1), run.ops[n - 1]);
      if Linked(run.cfg, run.stores[n - 1])
      then m + Returned(run.cfg, run.stores[n - 1], run.ops[n - 1], run.choices[n - 1], run.stores[n])
      else m
  }

  lemma CallFollows(run: Run, n: nat)
    requires 0 < n <= |run.ops| && Means(run.cfg, run.stores[n - 1], TrueMap(run, n - 1))
    ensures Means(run.cfg, run.stores[n], TrueMap(run, n))
    ensures run.results[n - 1] == Answer(TrueMap(run, n - 1), run.ops[n - 1])
  {
    RunKeepsInv(run, n - 1);
    assert CallInto(run, n);
    StepFollows(run.cfg, run.stores[n - 1], run.ops[n - 1], run.choices[n - 1], run.stores[n], TrueMap(run, n - 1));
    ResultIsAnswer(run.cfg, run.stores[n - 1], run.ops[n - 1], TrueMap(run, n - 1));
  }

  /** Every state of every run means the map its calls make of the empty one, with what its
      losses have brought back. */
  lemma {:induction false} RunReaches(run: Run, n: nat)
    requires n <= |run.ops|
    ensures Means(run.cfg, run.stores[n], TrueMap(run, n))
  {
    if n == 0 {
      InitialIsRight(run.cfg, run.stores[0]);
    } else {
      RunReaches(run, n - 1);
      CallFollows(run, n);
    }
  }

  /** Every run answers as a plain map to which each loss gives back the keys it forgot, with
      the values their shards kept. */
  lemma RunAnswers(run: Run, n: nat)
    requires 0 < n <= |run.ops|
    ensures run.results[n - 1] == Answer(TrueMap(run, n - 1), run.ops[n - 1])
  {
    RunReaches(run, n - 1);
    CallFollows(run, n);
  }

  lemma NothingReturned(cfg: Config, st: Store, op: Op, ch: Choice, next: Store)
    requires Linked(cfg, st) && !Loses(cfg, st, op, ch, next)
    ensures Returned(cfg, st, op, ch, next) == map[]
  {
    forall k
      ensures !Forgets(cfg, st, op, ch, next, k)
    {
      if Forgets(cfg, st, op, ch, next, k) {
        LosesByForgetting(cfg, st, op, ch, next, k);
      }
    }
  }

  /** Without losses nothing comes back. */
  lemma {:induction false} TrueMapIsPlain(run: Run, n: nat)
    requires n <= |run.ops| && forall i :: 0 < i <= n ==> !LosesInto(run, i)
    ensures TrueMap(run, n) == MapAfter(run.ops[..n])
  {
    if n > 0 {
      TrueMapIsPlain(run, n - 1);
      MapAfterNext(run.ops, n);
      assert !LosesInto(run, n);
      if Linked(run.cfg, run.stores[n - 1]) {
        NothingReturned(run.cfg, run.stores[n - 1], run.ops[n - 1], run.choices[n - 1], run.stores[n]);
      }
    }
  }

  /** Every state of the run means the plain map. */
  ghost predicate FollowsMap(run: Run) {
    forall n :: 0 <= n <= |run.ops| ==> Means(run.cfg, run.stores[n], MapAfter(run.ops[..n]))
  }

  ghost predicate AnswersAsMap(run: Run) {
    forall i :: 0 <= i < |run.ops| ==> run.results[i] == Answer(MapAfter(run.ops[..i]), run.ops[i])
  }

  ghost predicate LosesNothing(run: Run) {
    forall n :: 0 < n <= |run.ops| ==> !LosesInto(run, n)
  }

  /** Every run in which no removal is lost answers as a plain map. */
  lemma RunRefinesMap(run: Run)
    requires LosesNothing(run)
    ensures AnswersAsMap(run) && FollowsMap(run)
    ensures forall n :: 0 <= n <= |run.ops| ==> CountersOk(run.stores[n])
  {
    forall n | 0 <= n <= |run.ops|
      ensures Means(run.cfg, run.stores[n], MapAfter(run.ops[..n])) && CountersOk(run.stores[n])
    {
      RunReaches(run, n);
      RunCounts(run, n);
      TrueMapIsPlain(run, n);
    }
    forall i | 0 <= i < |run.ops|
      ensures run.results[i] == Answer(MapAfter(run.ops[..i]), run.ops[i])
    {
      RunAnswers(run, i + 1);
      TrueMapIsPlain(run, i);
    }
  }

  /** The states of a run mean the plain map exactly if none of its calls loses a removal. */
  lemma RunRefinesMapExactly(run: Run)
    ensures FollowsMap(run) <==> LosesNothing(run)
  {
    if LosesNothing(run) {
      RunRefinesMap(run);
    } else {
      var n :| 0 < n <= |run.ops| && LosesInto(run, n);
      var first := FirstLoss(run, n);
      RunDeparts(run, first);
    }
  }

  /** The first lost removal shows in the very next state. */
  lemma RunDeparts(run: Run, n: nat)
    requires 0 < n <= |run.ops| && LosesInto(run, n) && forall i :: 0 < i < n ==> !LosesInto(run, i)
    ensures !Means(run.cfg, run.stores[n], MapAfter(run.ops[..n]))
  {
    RunReaches(run, n - 1);
    TrueMapIsPlain(run, n - 1);
    CallDeparts(run, n, MapAfter(run.ops[..n - 1]));
    MapAfterNext(run.ops, n);
  }

  lemma MapAfterNext(ops: seq<Op>, n: nat)
    requires 0 < n <= |ops|
    ensures MapAfter(ops[..n]) == Apply(MapAfter(ops[..n - 1]), ops[n - 1])
  {
    assert ops[..n][..n - 1] == ops[..n - 1];
  }

  lemma CallDeparts(run: Run, n: nat, m: map<Key, Value>)
    requires 0 < n <= |run.ops| && LosesInto(run, n) && Means(run.cfg, run.stores[n - 1], m)
    ensures !Means(run.cfg, run.stores[n], Apply(m, run.ops[n - 1]))
  {
    RunKeepsInv(run, n - 1);
    assert CallInto(run, n);
    LossDeparts(run.cfg, run.stores[n - 1], run.ops[n - 1], run.choices[n - 1], run.stores[n], m);
  }

  lemma LossDeparts(cfg: Config, st: Store, op: Op, ch: Choice, next: Store, m: map<Key, Value>)
    requires Inv(cfg, st) && Step(cfg, st, op, ch, Running(next)) && Means(cfg, st, m) && Loses(cfg, st, op, ch, next)
    ensures !Means(cfg, next, Apply(m, op))
  {
    var k := SomeForgotten(cfg, st, op, ch, next);
    ForgottenIsKept(cfg, st, op, ch, next, k);
    StepMeans(cfg, st, op, ch, next, k);
    ApplyFollows(cfg, st, op, m, k);
    assert !Binds(Apply(m, op), k, Meaning(cfg, next, k));
  }

  lemma {:induction false} FirstLoss(run: Run, n: nat) returns (first: nat)
    requires 0 < n <= |run.ops| && LosesInto(run, n)
    ensures 0 < first <= n && LosesInto(run, first)
    ensures forall i :: 0 < i < first ==> !LosesInto(run, i)
    decreases n
  {
    if i :| 0 < i < n && LosesInto(run, i) {
      first := FirstLoss(run, i);
    } else {
      first := n;
    }
  }

  /** The counters are right in every state of a run exactly if no call of it loses a removal. */
  lemma RunCountsExactly(run: Run)
    ensures (forall n :: 0 <= n <= |run.ops| ==> CountersOk(run.stores[n])) <==> LosesNothing(run)
  {
    if LosesNothing(run) {
      RunRefinesMap(run);
    } else {
      var n :| 0 < n <= |run.ops| && LosesInto(run, n);
      var first := FirstLoss(run, n);
      RunCounts(run, first - 1);
      RunKeepsInv(run, first - 1);
      CallCounts(run, first);
    }
  }

  /** In a build with assertions every run answers as a plain map for as long as it lasts. */
  lemma CheckedRunRefinesMap(run: Run)
    requires run.cfg.asserts
    ensures AnswersAsMap(run) && FollowsMap(run)
    ensures forall n :: 0 <= n <= |run.ops| ==> CountersOk(run.stores[n])
  {
    forall n | 0 < n <= |run.ops|
      ensures !LosesInto(run, n)
    {
      RunKeepsInv(run, n - 1);
      assert CallInto(run, n);
      AssertionsLoseNothing(run.cfg, run.stores[n - 1], run.ops[n - 1], run.choices[n - 1], run.stores[n]);
    }
    RunRefinesMap(run);
  }

  /** In any build a run answers as a plain map as long as the cache stays below its load. */
  lemma LightRunRefinesMap(run: Run)
    requires forall n :: 0 <= n < |run.ops| ==> !Heavy(run.cfg.cacheSize, run.stores[n].cache)
    ensures AnswersAsMap(run) && FollowsMap(run)
    ensures forall n :: 0 <= n <= |run.ops| ==> CountersOk(run.stores[n])
  {
    forall n | 0 < n <= |run.ops|
      ensures !LosesInto(run, n)
    {
      RunKeepsInv(run, n - 1);
      assert CallInto(run, n);
      LightCallLosesNothing(run.cfg, run.stores[n - 1], run.ops[n - 1], run.choices[n - 1], run.stores[n]);
    }
    RunRefinesMap(run);
  }
}
