/** What a client of the store sees: calls on one store object, one after the other, are a run. */
module Client {
  import opened KeyValueTypes
  import opened ShardModel
  import opened StoreModel
  import opened StoreRuns
  import opened StoreRow
  import opened KVS

  /** What the calls on a store may change besides its list of shards. */
  ghost function Parts(kvs: KVS): set<object>
    reads kvs
  {
    {kvs.cacheMap, kvs.cacheMap.data} + (set s | s in kvs.shards) + (set s | s in kvs.shards :: s.filter)
  }

  /** One of the three calls. */
  method Call(kvs: KVS, op: Op) returns (status: Status, result: Option<Value>, ghost d: Draw)
    requires kvs.Valid()
    modifies kvs`shards, kvs.cacheMap, kvs.cacheMap.data, kvs.shards, set s | s in kvs.shards :: s.filter
    ensures kvs.Took(old(kvs.State()), op, status, d)
    ensures status.Completed? ==> kvs.Valid() && kvs.Renewed()
    ensures status.Completed? ==> result == Result(kvs.cfg, old(Abs(kvs.State())), op)
  {
    result := None;
    match op
    case Add(key, value) =>
      status, d := kvs.Add(key, value);
    case Get(key) =>
      status, result, d := kvs.Get(key);
    case Remove(key) =>
      status, d := kvs.Remove(key);
  }

  /** The calls were a run of the store, with these results: all of them, and the object is in
      the state to which the run has come, or those before the one that ends the program. */
  ghost predicate Ran(kvs: KVS, ops: seq<Op>, status: Status, results: seq<Option<Value>>, t: RowRun)
    reads kvs, kvs.cacheMap, kvs.cacheMap.data, kvs.shards, set s | s in kvs.shards :: s.filter
  {
    && t.cfg == kvs.cfg && t.results == results
    && match status
       case Completed => t.ops == ops && kvs.Valid() && Last(t) == kvs.State()
       case Terminated(reason) => StopsNext(t, ops, reason)
  }

  /** The first call after the run ends the program. */
  ghost predicate StopsNext(t: RowRun, ops: seq<Op>, reason: StopReason) {
    && t.ops <= ops && |t.ops| < |ops| && RowInv(t.cfg, Last(t))
    && exists d :: RowStep(t.cfg, Last(t), ops[|t.ops|], d, RowStopped(reason))
  }

  /** Calls on a store that has come along a run go on with the run. */
  method CallAll(kvs: KVS, ghost done: seq<Op>, ops: seq<Op>, earlier: seq<Option<Value>>, ghost run: RowRun)
    returns (status: Status, results: seq<Option<Value>>, ghost t: RowRun)
    requires Ran(kvs, done, Completed, earlier, run)
    modifies kvs`shards, Parts(kvs)
    ensures Ran(kvs, done + ops, status, results, t) && t.stores[0] == run.stores[0]
    decreases |ops|
  {
    OneMore(done, ops);
    if ops == [] {
      status, results, t := Completed, earlier, run;
    } else {
      status, results, t := CallNext(kvs, done, ops[0], earlier, run);
      if status.Completed? {
        status, results, t := CallAll(kvs, done + [ops[0]], ops[1..], results, t);
      } else {
        StoppedBefore(kvs, done + ops, |done| + 1, status.reason, results, t);
      }
    }
  }

  lemma OneMore(done: seq<Op>, ops: seq<Op>)
    ensures ops == [] ==> done + ops == done
    ensures ops != [] ==> done + ops == done + [ops[0]] + ops[1..]
    ensures ops != [] ==> (done + ops)[..|done| + 1] == done + [ops[0]]
  {
  }

  lemma EmptyRun(kvs: KVS) returns (t: RowRun)
    requires kvs.Valid() && InitialRow(kvs.cfg, kvs.State())
    ensures Ran(kvs, [], Completed, [], t) && t.stores[0] == kvs.State()
  {
    t := RowTrace(kvs.cfg, [kvs.State()], [], [], []);
  }

  lemma StoppedBefore(kvs: KVS, ops: seq<Op>, n: nat, reason: StopReason, results: seq<Option<Value>>, t: RowRun)
    requires n <= |ops| && Ran(kvs, ops[..n], Terminated(reason), results, t)
    ensures Ran(kvs, ops, Terminated(reason), results, t)
  {
  }

  /** A call makes the run one longer, or ends the program. */
  method CallNext(kvs: KVS, ghost ops: seq<Op>, op: Op, earlier: seq<Option<Value>>, ghost run: RowRun)
    returns (status: Status, results: seq<Option<Value>>, ghost t: RowRun)
    requires Ran(kvs, ops, Completed, earlier, run)
    modifies kvs`shards, Parts(kvs)
    ensures Ran(kvs, ops + [op], status, results, t) && t.stores[0] == run.stores[0]
    ensures status.Completed? ==> fresh(Parts(kvs) - old(Parts(kvs)))
  {
    var result;
    ghost var d;
    status, result, d := Call(kvs, op);
    if status.Completed? {
      results := earlier + [result];
      t := Continued(kvs, op, run, result, d);
    } else {
      results, t := earlier, run;
      Ended(kvs, op, run, status.reason, d);
    }
  }

  lemma Continued(kvs: KVS, op: Op, run: RowRun, result: Option<Value>, d: Draw) returns (t: RowRun)
    requires run.cfg == kvs.cfg && kvs.Valid() && kvs.Took(Last(run), op, Completed, d)
    requires result == Result(kvs.cfg, Abs(Last(run)), op)
    ensures Ran(kvs, run.ops + [op], Completed, run.results + [result], t) && t.stores[0] == run.stores[0]
  {
    t := GoOn(run, op, d, kvs.State());
  }

  lemma Ended(kvs: KVS, op: Op, run: RowRun, reason: StopReason, d: Draw)
    requires run.cfg == kvs.cfg && kvs.Took(Last(run), op, Terminated(reason), d)
    ensures Ran(kvs, run.ops + [op], Terminated(reason), run.results, run)
  {
    var more := run.ops + [op];
    assert more[|run.ops|] == op;
  }

  /** These are the answers of a plain map to the first calls. */
  predicate AnswersAsMap(ops: seq<Op>, results: seq<Option<Value>>) {
    && |results| <= |ops|
    && forall i :: 0 <= i < |results| ==> results[i] == Answer(MapAfter(ops[..i]), ops[i])
  }

  /** The calls made on a new store are a run of it, up to the one that ends the program. They are
      answered as by a plain map, if the run loses no removal, and by a build with assertions
      always. */
  method CallsOnNewStore(hash: Hasher, asserts: bool, random: nat -> nat, ops: seq<Op>,
                         shardNumber: nat := SHARD_NUMBER, cacheSize: nat := CACHE_MAP_SIZE)
    returns (status: Status, results: seq<Option<Value>>, ghost t: RowRun)
    requires shardNumber > 0 && cacheSize >= 7
    ensures t.cfg == Config(hash, cacheSize, asserts) && |t.stores[0].shards| == shardNumber
    ensures t.ops <= ops && t.results == results
    ensures if status.Completed? then t.ops == ops else StopsNext(t, ops, status.reason)
    ensures if status.Completed? then |results| == |ops| else |results| < |ops|
    ensures asserts ==> AnswersAsMap(ops, results)
    ensures IsRun(AbsTrace(t)) && (LosesNothing(AbsTrace(t)) ==> AnswersAsMap(ops, results))
  {
    var kvs := NewStore(hash, asserts, random, shardNumber, cacheSize);
    t := EmptyRun(kvs);
    status, results, t := CallAll(kvs, [], ops, [], t);
    AfterNone(ops);
    FollowsCalls(t, ops);
  }

  /** The store that the program makes: 4981 shards with index files of 586 bytes each, and a cache
      of 5000 slots. */
  method ProgramStore(hash: Hasher, asserts: bool, random: nat -> nat) returns (kvs: KVS)
    ensures kvs.Valid() && InitialRow(kvs.cfg, kvs.State()) && fresh(kvs)
    ensures |kvs.shards| == 4981 && kvs.cacheMap.data.Length == 5000
    ensures forall s :: s in kvs.shards ==> s.valuesFile == [] && |s.indexFile| == 586
  {
    kvs := new KVS(hash, asserts, random);
    forall i | 0 <= i < |kvs.shards|
      ensures kvs.shards[i].valuesFile == [] && |kvs.shards[i].indexFile| == 586
    {
      assert kvs.shards[i] in kvs.shards && kvs.State().shards[i] == EMPTY_SHARD;
      kvs.shards[i].IndexFileSize();
    }
  }

  method NewStore(hash: Hasher, asserts: bool, random: nat -> nat, shardNumber: nat, cacheSize: nat)
    returns (kvs: KVS)
    requires shardNumber > 0 && cacheSize >= 7
    ensures fresh(kvs) && fresh(Parts(kvs)) && kvs.Valid() && InitialRow(kvs.cfg, kvs.State())
    ensures kvs.cfg == Config(hash, cacheSize, asserts) && |kvs.shards| == shardNumber
  {
    kvs := new KVS(hash, asserts, random, shardNumber, cacheSize);
  }

  lemma AfterNone(ops: seq<Op>)
    ensures [] + ops == ops
  {
  }

  lemma FollowsCalls(t: RowRun, ops: seq<Op>)
    requires t.ops <= ops
    ensures IsRun(AbsTrace(t))
    ensures t.cfg.asserts || LosesNothing(AbsTrace(t)) ==> AnswersAsMap(ops, t.results)
  {
    ProgramRefinesMap(t);
    forall i | 0 <= i < |t.ops|
      ensures t.ops[..i] == ops[..i] && t.ops[i] == ops[i]
    {
    }
  }
}
