/** A run that comes to a store on which the write-back of a rebuild goes wrong: it ends a
    program built with assertions, and `StoreLossExample` goes on from there without them. And a
    run that comes to the assertion on a key known to be gone. */
module StoreExample {
  import opened KeyValueTypes
  import opened LinearProbing
  import opened CacheRow
  import opened ShardModel
  import opened StoreModel
  import opened StoreSteps
  import opened StoreRow
  import opened StoreStops

  /** The keys of the example, for a cache of any size from seven on and two shards or more:
      as many as bring the cache over its load, each with a home slot of its own, and the slot
      after the home of `removed` not among them. `removed` and `live` share a shard. */
  datatype Keys = Keys(present: Key, live: Key, removed: Key, fillers: seq<Key>, spare: Key) {

    function All(): seq<Key> { [present, live, removed] + fillers }

    ghost predicate Placed(cfg: Config, shardNumber: nat) {
      && cfg.cacheSize >= 7 && shardNumber >= 2
      && |fillers| == 2 * cfg.cacheSize / 3 - 2
      && DistinctHomes(cfg, All())
      && (forall i :: 0 <= i < |All()| ==>
            Home(cfg.hash, All()[i], cfg.cacheSize)
            != Next(cfg.cacheSize, Home(cfg.hash, removed, cfg.cacheSize)))
      && Home(cfg.hash, live, shardNumber) == Home(cfg.hash, removed, shardNumber)
      && Home(cfg.hash, present, shardNumber) != Home(cfg.hash, removed, shardNumber)
      && spare !in All() && Home(cfg.hash, spare, cfg.cacheSize) == Home(cfg.hash, removed, cfg.cacheSize)
    }

    /** What the cache holds after the calls of `Script`. */
    function Entries(): seq<Entry> {
      [Entry(present, Ptr(0x80)), Entry(live, Ptr(0x80)), Entry(removed, Ptr(0x01))]
      + seq(|fillers|, i requires 0 <= i < |fillers| => Entry(fillers[i], NONEXISTENT_PTR))
    }

    function PresentShard(v: Value): ShardState {
      ShardState(map[present := Ptr(0x80)], [v], 1)
    }

    function LiveShard(v: Value): ShardState {
      ShardState(map[live := Ptr(0x80)], [v], 1)
    }

    function RemovedShard(v: Value): ShardState {
      ShardState(map[live := Ptr(0x80), removed := Ptr(0x81)], [v, v], 1)
    }
  }

  ghost predicate DistinctHomes(cfg: Config, keys: seq<Key>)
    requires cfg.cacheSize > 0
  {
    forall i, j :: 0 <= i < j < |keys| ==>
      Home(cfg.hash, keys[i], cfg.cacheSize) != Home(cfg.hash, keys[j], cfg.cacheSize)
  }

  // ----- Rows in which every key is at home -----

  /** The row after puts of these entries, each into its free home slot. */
  function Laid(cfg: Config, entries: seq<Entry>): (slots: seq<Entry>)
    requires cfg.cacheSize > 0
    ensures |slots| == cfg.cacheSize
  {
    if entries == [] then seq(cfg.cacheSize, _ => FREE_ENTRY)
    else
      var last := |entries| - 1;
      Laid(cfg, entries[..last])[Home(cfg.hash, entries[last].key, cfg.cacheSize) := entries[last]]
  }

  ghost predicate Housed(cfg: Config, entries: seq<Entry>)
    requires cfg.cacheSize > 0
  {
    && (forall i :: 0 <= i < |entries| ==> !entries[i].IsFree())
    && (forall i, j :: 0 <= i < j < |entries| ==>
          Home(cfg.hash, entries[i].key, cfg.cacheSize) != Home(cfg.hash, entries[j].key, cfg.cacheSize))
  }

  /** A slot is taken exactly if it is the home of an entry's key, and by that entry. */
  lemma LaidAt(cfg: Config, entries: seq<Entry>, slot: nat)
    requires cfg.cacheSize > 0 && Housed(cfg, entries) && slot < cfg.cacheSize
    ensures (forall i :: 0 <= i < |entries| ==> Home(cfg.hash, entries[i].key, cfg.cacheSize) != slot) ==>
              Laid(cfg, entries)[slot].IsFree()
    ensures forall i :: 0 <= i < |entries| && Home(cfg.hash, entries[i].key, cfg.cacheSize) == slot ==>
              Laid(cfg, entries)[slot] == entries[i]
  {
    if forall i :: 0 <= i < |entries| ==> Home(cfg.hash, entries[i].key, cfg.cacheSize) != slot {
      NoneLaidAt(cfg, entries, slot);
    }
    forall i | 0 <= i < |entries| && Home(cfg.hash, entries[i].key, cfg.cacheSize) == slot
      ensures Laid(cfg, entries)[slot] == entries[i]
    {
      LaidAtHome(cfg, entries, i);
    }
  }

  lemma {:induction false} NoneLaidAt(cfg: Config, entries: seq<Entry>, slot: nat)
    requires cfg.cacheSize > 0 && slot < cfg.cacheSize
    requires forall i :: 0 <= i < |entries| ==> Home(cfg.hash, entries[i].key, cfg.cacheSize) != slot
    ensures Laid(cfg, entries)[slot].IsFree()
  {
    if entries != [] {
      NoneLaidAt(cfg, entries[..|entries| - 1], slot);
    }
  }

  lemma {:induction false} LaidAtHome(cfg: Config, entries: seq<Entry>, i: nat)
    requires cfg.cacheSize > 0 && Housed(cfg, entries) && i < |entries|
    ensures Laid(cfg, entries)[Home(cfg.hash, entries[i].key, cfg.cacheSize)] == entries[i]
  {
    if i < |entries| - 1 {
      LaidAtHome(cfg, entries[..|entries| - 1], i);
    }
  }

  /** The next entry of a new home goes there. */
  lemma NextIsLaid(cfg: Config, entries: seq<Entry>, e: Entry)
    requires cfg.cacheSize > 0 && Housed(cfg, entries + [e])
    ensures var home := Home(cfg.hash, e.key, cfg.cacheSize);
            StopsAt(Laid(cfg, entries), home, e.key, home) && Laid(cfg, entries)[home].IsFree()
    ensures RowPut(cfg.hash, Laid(cfg, entries), e, None) == Laid(cfg, entries + [e])
  {
    var home, more := Home(cfg.hash, e.key, cfg.cacheSize), entries + [e];
    assert more[..|entries|] == entries;
    assert forall i :: 0 <= i < |entries| ==> more[i] == entries[i] && more[|entries|] == e;
    LaidAt(cfg, entries, home);
    StopSlotIs(cfg.hash, Laid(cfg, entries), e.key, home);
  }

  lemma {:induction false} LaidIsRow(cfg: Config, entries: seq<Entry>)
    requires cfg.cacheSize > 0 && Housed(cfg, entries)
    ensures WellProbed(cfg.hash, Laid(cfg, entries)) && Used(Laid(cfg, entries)) == |entries|
    ensures DistinctKeys(entries) && Contents(Laid(cfg, entries)) == Contents(entries)
  {
    if entries == [] {
      AllFree(Laid(cfg, []));
      ContentsIsTheOne(Laid(cfg, []), map[]);
    } else {
      var last := |entries| - 1;
      var earlier, e := entries[..last], entries[last];
      LaidIsRow(cfg, earlier);
      assert earlier + [e] == entries;
      NextIsLaid(cfg, earlier, e);
      StoreWhereStopped(cfg.hash, Laid(cfg, earlier), e, Home(cfg.hash, e.key, cfg.cacheSize));
      StopDecides(cfg.hash, Laid(cfg, earlier), e.key, Home(cfg.hash, e.key, cfg.cacheSize));
    }
  }

  // ----- Calls below the load -----

  const NO_DRAW := Draw(None, [], [])

  /** A call that misses the cache below its load. */
  lemma LightMiss(cfg: Config, rs: RowStore, op: Op)
    requires RowInv(cfg, rs) && Puts(Abs(rs), op) && !Overloaded(rs.slots)
    requires op.Add? ==> !Overflows(rs.shards[ShardOf(cfg, Abs(rs), op.key)], op.key)
    ensures var i := ShardOf(cfg, Abs(rs), op.key);
            var (s, ptr) := WriteOf(rs.shards[i], op);
            RowStep(cfg, rs, op, NO_DRAW,
                    RowRunning(RowStore(RowPut(cfg.hash, rs.slots, Entry(op.key, ptr), None), rs.shards[i := s])))
  {
    PrepareIsPut(cfg, Abs(rs), op, None);
    RowPrepares(cfg, rs, op, NO_DRAW);
  }

  /** A run whose last row holds these entries at home. */
  ghost predicate At(t: RowTrace, ops: seq<Op>, entries: seq<Entry>, shards: seq<ShardState>) {
    && IsRowRun(t) && t.ops == ops && RowInv(t.cfg, Last(t))
    && Housed(t.cfg, entries) && Last(t) == RowStore(Laid(t.cfg, entries), shards)
  }

  lemma NewIsUnknown(cfg: Config, entries: seq<Entry>, e: Entry)
    requires cfg.cacheSize > 0 && Housed(cfg, entries) && Housed(cfg, entries + [e])
    ensures e.key !in Contents(Laid(cfg, entries))
  {
    LaidIsRow(cfg, entries);
    NextIsLaid(cfg, entries, e);
    StopDecides(cfg.hash, Laid(cfg, entries), e.key, Home(cfg.hash, e.key, cfg.cacheSize));
  }

  /** A call with a new key of a home of its own, below the load. */
  lemma MissExtends(t: RowTrace, op: Op, entries: seq<Entry>, e: Entry, i: nat, s: ShardState) returns (t': RowTrace)
    requires |t.stores| == |t.ops| + 1 && At(t, t.ops, entries, Last(t).shards)
    requires i == ShardOf(t.cfg, Abs(Last(t)), op.key)
    requires op.Add? ==> !Overflows(Last(t).shards[i], op.key)
    requires WriteOf(Last(t).shards[i], op) == (s, e.ptr) && e.key == op.key
    requires Housed(t.cfg, entries + [e]) && 3 * |entries| <= 2 * t.cfg.cacheSize
    ensures t'.cfg == t.cfg && At(t', t.ops + [op], entries + [e], Last(t).shards[i := s])
  {
    var rs := Last(t);
    LaidIsRow(t.cfg, entries);
    NewIsUnknown(t.cfg, entries, e);
    NextIsLaid(t.cfg, entries, e);
    LightMiss(t.cfg, rs, op);
    var next := RowStore(Laid(t.cfg, entries + [e]), rs.shards[i := s]);
    t' := GoOn(t, op, NO_DRAW, next);
  }

  /** The first pointer of a shard, and the second. */
  lemma FirstPtrs(s: ShardState)
    ensures |s.values| == 0 ==> NextPtr(s) == Ptr(0x80)
    ensures |s.values| == 1 ==> NextPtr(s) == Ptr(0x81)
  {
    AtOffsetReadsBack(0, true);
    AtOffsetReadsBack(1, true);
  }

  lemma AddFirst(key: Key, v: Value)
    ensures ShardInv(EMPTY_SHARD) && !Overflows(EMPTY_SHARD, key)
    ensures WriteOf(EMPTY_SHARD, Add(key, v)) == (ShardState(map[key := Ptr(0x80)], [v], 1), Ptr(0x80))
  {
    var s := EMPTY_SHARD;
    FirstPtrs(s);
    assert AppendNew(s, key, v) == ShardState(map[key := Ptr(0x80)], [v], 1) by {
      assert s.values + [v] == [v];
    }
  }

  lemma AddSecond(first: Key, key: Key, v: Value)
    requires first != key
    ensures var s := ShardState(map[first := Ptr(0x80)], [v], 1);
            && ShardInv(s) && !Overflows(s, key)
            && WriteOf(s, Add(key, v))
               == (ShardState(map[first := Ptr(0x80), key := Ptr(0x81)], [v, v], 2), Ptr(0x81))
  {
    var s := ShardState(map[first := Ptr(0x80)], [v], 1);
    FirstPtrs(s);
    assert s.values + [v] == [v, v];
  }

  /** A remove of a key cached as present that asks for no rebuild. */
  lemma QuietMark(cfg: Config, rs: RowStore, key: Key)
    requires RowInv(cfg, rs) && Lookup(Contents(rs.slots), key).IsPresent()
    requires var s := rs.shards[ShardOf(cfg, Abs(rs), key)];
             !RebuildRequired(s.(alive := Decrement(s.alive)))
    ensures var i, ptr := ShardOf(cfg, Abs(rs), key), Contents(rs.slots)[key].SetValuePresent(false);
            RowStep(cfg, rs, Remove(key), NO_DRAW,
                    RowRunning(RowStore(RowPut(cfg.hash, rs.slots, Entry(key, ptr), None),
                                        rs.shards[i := rs.shards[i].(alive := Decrement(rs.shards[i].alive))])))
  {
    RowPrepares(cfg, rs, Remove(key), NO_DRAW);
  }

  lemma HalfDead(keys: Keys, v: Value)
    ensures Decrement(2) == 1 && !RebuildRequired(keys.RemovedShard(v))
  {
  }

  /** The shards of the example: those of `present` and of `removed`, and empty ones. */
  function Shards(cfg: Config, keys: Keys, shardNumber: nat, s: ShardState, t: ShardState): seq<ShardState>
    requires shardNumber > 0
  {
    seq(shardNumber, i requires 0 <= i < shardNumber =>
          if i == Home(cfg.hash, keys.present, shardNumber) then s
          else if i == Home(cfg.hash, keys.removed, shardNumber) then t
          else EMPTY_SHARD)
  }

  lemma ShardsUpdated(cfg: Config, keys: Keys, shardNumber: nat, s: ShardState, t: ShardState, u: ShardState)
    requires keys.Placed(cfg, shardNumber)
    ensures var shards := Shards(cfg, keys, shardNumber, s, t);
            && shards[Home(cfg.hash, keys.present, shardNumber) := u] == Shards(cfg, keys, shardNumber, u, t)
            && shards[Home(cfg.hash, keys.removed, shardNumber) := u] == Shards(cfg, keys, shardNumber, s, u)
  {
  }

  /** Entries of the first keys of the example have homes of their own. */
  lemma PrefixIsHoused(cfg: Config, keys: Keys, shardNumber: nat, entries: seq<Entry>)
    requires keys.Placed(cfg, shardNumber) && |entries| <= |keys.All()|
    requires forall i :: 0 <= i < |entries| ==> entries[i].key == keys.All()[i] && !entries[i].IsFree()
    ensures Housed(cfg, entries)
  {
  }

  function Script(keys: Keys, v: Value): seq<Op> {
    [Add(keys.present, v), Add(keys.live, v), Add(keys.removed, v), Remove(keys.removed)]
  }

  lemma EmptyStart(cfg: Config, keys: Keys, shardNumber: nat) returns (t: RowTrace)
    requires keys.Placed(cfg, shardNumber)
    ensures t.cfg == cfg && At(t, [], [], Shards(cfg, keys, shardNumber, EMPTY_SHARD, EMPTY_SHARD))
  {
    var rs := RowStore(Laid(cfg, []), Shards(cfg, keys, shardNumber, EMPTY_SHARD, EMPTY_SHARD));
    t := RowTrace(cfg, [rs], [], [], []);
    InitialRowIsRight(cfg, rs);
  }

  lemma TwoAdds(cfg: Config, keys: Keys, shardNumber: nat, v: Value) returns (t: RowTrace)
    requires keys.Placed(cfg, shardNumber)
    ensures t.cfg == cfg
    ensures At(t, [Add(keys.present, v), Add(keys.live, v)],
               [Entry(keys.present, Ptr(0x80)), Entry(keys.live, Ptr(0x80))],
               Shards(cfg, keys, shardNumber, keys.PresentShard(v), keys.LiveShard(v)))
  {
    var p, r := Home(cfg.hash, keys.present, shardNumber), Home(cfg.hash, keys.removed, shardNumber);
    var e1, e2, e3 := Entry(keys.present, Ptr(0x80)), Entry(keys.live, Ptr(0x80)), Entry(keys.removed, Ptr(0x81));
    FirstAreHoused(cfg, keys, shardNumber, e1, e2, e3);
    t := EmptyStart(cfg, keys, shardNumber);
    AddFirst(keys.present, v);
    ShardsUpdated(cfg, keys, shardNumber, EMPTY_SHARD, EMPTY_SHARD, keys.PresentShard(v));
    t := MissExtends(t, Add(keys.present, v), [], e1, p, keys.PresentShard(v));
    assert [] + [e1] == [e1];
    AddFirst(keys.live, v);
    ShardsUpdated(cfg, keys, shardNumber, keys.PresentShard(v), EMPTY_SHARD, keys.LiveShard(v));
    t := MissExtends(t, Add(keys.live, v), [e1], e2, r, keys.LiveShard(v));
    assert [e1] + [e2] == [e1, e2];
  }

  lemma ThreeAdds(cfg: Config, keys: Keys, shardNumber: nat, v: Value) returns (t: RowTrace)
    requires keys.Placed(cfg, shardNumber)
    ensures t.cfg == cfg
    ensures At(t, [Add(keys.present, v), Add(keys.live, v), Add(keys.removed, v)],
               [Entry(keys.present, Ptr(0x80)), Entry(keys.live, Ptr(0x80)), Entry(keys.removed, Ptr(0x81))],
               Shards(cfg, keys, shardNumber, keys.PresentShard(v), keys.RemovedShard(v).(alive := 2)))
  {
    var e1, e2, e3 := Entry(keys.present, Ptr(0x80)), Entry(keys.live, Ptr(0x80)), Entry(keys.removed, Ptr(0x81));
    var both := keys.RemovedShard(v).(alive := 2);
    FirstAreHoused(cfg, keys, shardNumber, e1, e2, e3);
    t := TwoAdds(cfg, keys, shardNumber, v);
    AddSecond(keys.live, keys.removed, v);
    ShardsUpdated(cfg, keys, shardNumber, keys.PresentShard(v), keys.LiveShard(v), both);
    t := MissExtends(t, Add(keys.removed, v), [e1, e2], e3, Home(cfg.hash, keys.removed, shardNumber), both);
    assert [e1, e2] + [e3] == [e1, e2, e3];
  }

  lemma FirstAreHoused(cfg: Config, keys: Keys, shardNumber: nat, e1: Entry, e2: Entry, e3: Entry)
    requires keys.Placed(cfg, shardNumber) && !e1.IsFree() && !e2.IsFree() && !e3.IsFree()
    requires e1.key == keys.present && e2.key == keys.live && e3.key == keys.removed
    ensures Housed(cfg, [e1]) && Housed(cfg, [e1, e2]) && Housed(cfg, [e1, e2, e3])
    ensures Housed(cfg, [] + [e1]) && Housed(cfg, [e1] + [e2]) && Housed(cfg, [e1, e2] + [e3])
    ensures keys.live != keys.removed
  {
    PrefixIsHoused(cfg, keys, shardNumber, [e1]);
    PrefixIsHoused(cfg, keys, shardNumber, [e1, e2]);
    PrefixIsHoused(cfg, keys, shardNumber, [e1, e2, e3]);
    assert [] + [e1] == [e1] && [e1] + [e2] == [e1, e2] && [e1, e2] + [e3] == [e1, e2, e3];
    assert [e1, e2, e3][1] == e2 && [e1, e2, e3][2] == e3;
  }

  /** The removal of `removed` is marked in the cache; half of its shard is dead. */
  lemma ScriptRuns(cfg: Config, keys: Keys, shardNumber: nat, v: Value) returns (t: RowTrace)
    requires keys.Placed(cfg, shardNumber)
    ensures t.cfg == cfg
    ensures At(t, Script(keys, v), keys.Entries()[..3],
               Shards(cfg, keys, shardNumber, keys.PresentShard(v), keys.RemovedShard(v)))
  {
    t := ThreeAdds(cfg, keys, shardNumber, v);
    var e1, e2, marked := Entry(keys.present, Ptr(0x80)), Entry(keys.live, Ptr(0x80)), Entry(keys.removed, Ptr(0x01));
    var shards := Shards(cfg, keys, shardNumber, keys.PresentShard(v), keys.RemovedShard(v));
    var next, ops := RowStore(Laid(cfg, [e1, e2, marked]), shards), t.ops;
    FirstAreHoused(cfg, keys, shardNumber, e1, e2, marked);
    MarkStep(cfg, keys, shardNumber, v, Last(t), next);
    t := GoOn(t, Remove(keys.removed), NO_DRAW, next);
    assert keys.Entries()[..3] == [e1, e2, marked];
    assert ops + [Remove(keys.removed)] == Script(keys, v);
  }

  lemma MarkStep(cfg: Config, keys: Keys, shardNumber: nat, v: Value, rs: RowStore, next: RowStore)
    requires keys.Placed(cfg, shardNumber) && RowInv(cfg, rs)
    requires var e1, e2 := Entry(keys.present, Ptr(0x80)), Entry(keys.live, Ptr(0x80));
             && rs.slots == Laid(cfg, [e1, e2, Entry(keys.removed, Ptr(0x81))])
             && next.slots == Laid(cfg, [e1, e2, Entry(keys.removed, Ptr(0x01))])
    requires rs.shards == Shards(cfg, keys, shardNumber, keys.PresentShard(v), keys.RemovedShard(v).(alive := 2))
    requires next.shards == Shards(cfg, keys, shardNumber, keys.PresentShard(v), keys.RemovedShard(v))
    ensures RowStep(cfg, rs, Remove(keys.removed), NO_DRAW, RowRunning(next))
  {
    var e1, e2, e3 := Entry(keys.present, Ptr(0x80)), Entry(keys.live, Ptr(0x80)), Entry(keys.removed, Ptr(0x81));
    var marked := Entry(keys.removed, Ptr(0x01));
    FirstAreHoused(cfg, keys, shardNumber, e1, e2, e3);
    assert [e1, e2] + [e3] == [e1, e2, e3] && [e1, e2] + [marked] == [e1, e2, marked];
    LaidHolds(cfg, [e1, e2, e3], 2);
    MarkIsLaid(cfg, [e1, e2], e3, marked);
    ShardsUpdated(cfg, keys, shardNumber, keys.PresentShard(v), keys.RemovedShard(v).(alive := 2),
                  keys.RemovedShard(v));
    HalfDead(keys, v);
    QuietMark(cfg, rs, keys.removed);
  }

  lemma LaidHolds(cfg: Config, entries: seq<Entry>, i: nat)
    requires cfg.cacheSize > 0 && Housed(cfg, entries) && i < |entries|
    ensures entries[i].key in Contents(Laid(cfg, entries))
    ensures Contents(Laid(cfg, entries))[entries[i].key] == entries[i].ptr
  {
    LaidIsRow(cfg, entries);
    ContentsRepresents(entries);
  }

  /** An entry that is put again goes to the same place. */
  lemma MarkIsLaid(cfg: Config, entries: seq<Entry>, e: Entry, marked: Entry)
    requires cfg.cacheSize > 0 && Housed(cfg, entries + [e]) && marked.key == e.key && !marked.IsFree()
    ensures RowPut(cfg.hash, Laid(cfg, entries + [e]), marked, None) == Laid(cfg, entries + [marked])
  {
    var home := Home(cfg.hash, e.key, cfg.cacheSize);
    assert (entries + [e])[..|entries|] == entries == (entries + [marked])[..|entries|];
    LaidIsRow(cfg, entries + [e]);
    PutInPlace(cfg.hash, Laid(cfg, entries + [e]), marked, None, home);
    assert Laid(cfg, entries + [e])[home := marked] == Laid(cfg, entries)[home := marked];
  }

  function Gets(keys: Keys, n: nat): seq<Op>
    requires n <= |keys.fillers|
  {
    seq(n, i requires 0 <= i < n => Get(keys.fillers[i]))
  }

  /** The cache is filled with keys known to be absent. */
  lemma {:induction false} Fill(cfg: Config, keys: Keys, shardNumber: nat, v: Value, n: nat) returns (t: RowTrace)
    requires keys.Placed(cfg, shardNumber) && n <= |keys.fillers|
    ensures t.cfg == cfg
    ensures At(t, Script(keys, v) + Gets(keys, n), keys.Entries()[..3 + n],
               Shards(cfg, keys, shardNumber, keys.PresentShard(v), keys.RemovedShard(v)))
  {
    if n == 0 {
      t := ScriptRuns(cfg, keys, shardNumber, v);
      assert Script(keys, v) + Gets(keys, 0) == Script(keys, v);
    } else {
      t := Fill(cfg, keys, shardNumber, v, n - 1);
      t := FillOne(cfg, keys, shardNumber, v, n, t);
    }
  }

  lemma FillOne(cfg: Config, keys: Keys, shardNumber: nat, v: Value, n: nat, t: RowTrace) returns (t': RowTrace)
    requires keys.Placed(cfg, shardNumber) && 0 < n <= |keys.fillers| && t.cfg == cfg
    requires At(t, Script(keys, v) + Gets(keys, n - 1), keys.Entries()[..3 + (n - 1)],
                Shards(cfg, keys, shardNumber, keys.PresentShard(v), keys.RemovedShard(v)))
    ensures t'.cfg == cfg
    ensures At(t', Script(keys, v) + Gets(keys, n), keys.Entries()[..3 + n],
               Shards(cfg, keys, shardNumber, keys.PresentShard(v), keys.RemovedShard(v)))
  {
    var filler, entries := keys.fillers[n - 1], keys.Entries()[..3 + (n - 1)];
    NextFiller(cfg, keys, shardNumber, n);
    FillerIsAbsent(cfg, keys, shardNumber, v, n - 1, ShardOf(cfg, Abs(Last(t)), filler));
    t' := GetExtends(t, filler, entries);
  }

  lemma NextFiller(cfg: Config, keys: Keys, shardNumber: nat, n: nat)
    requires keys.Placed(cfg, shardNumber) && 0 < n <= |keys.fillers|
    ensures keys.Entries()[..3 + (n - 1)] + [Entry(keys.fillers[n - 1], NONEXISTENT_PTR)] == keys.Entries()[..3 + n]
    ensures Housed(cfg, keys.Entries()[..3 + n])
    ensures Gets(keys, n - 1) + [Get(keys.fillers[n - 1])] == Gets(keys, n)
  {
    PrefixIsHoused(cfg, keys, shardNumber, keys.Entries()[..3 + n]);
  }

  /** A get of a key that neither the cache nor the index knows. */
  lemma GetExtends(t: RowTrace, key: Key, entries: seq<Entry>) returns (t': RowTrace)
    requires |t.stores| == |t.ops| + 1 && At(t, t.ops, entries, Last(t).shards)
    requires key !in Last(t).shards[ShardOf(t.cfg, Abs(Last(t)), key)].index
    requires Housed(t.cfg, entries + [Entry(key, NONEXISTENT_PTR)]) && 3 * |entries| <= 2 * t.cfg.cacheSize
    ensures t'.cfg == t.cfg
    ensures At(t', t.ops + [Get(key)], entries + [Entry(key, NONEXISTENT_PTR)], Last(t).shards)
  {
    var shards, i := Last(t).shards, ShardOf(t.cfg, Abs(Last(t)), key);
    t' := MissExtends(t, Get(key), entries, Entry(key, NONEXISTENT_PTR), i, shards[i]);
    assert shards[i := shards[i]] == shards;
  }

  lemma FillerIsAbsent(cfg: Config, keys: Keys, shardNumber: nat, v: Value, j: nat, i: nat)
    requires keys.Placed(cfg, shardNumber) && j < |keys.fillers| && i < shardNumber
    ensures var s := Shards(cfg, keys, shardNumber, keys.PresentShard(v), keys.RemovedShard(v))[i];
            keys.fillers[j] !in s.index
  {
    var all := keys.All();
    assert all[0] == keys.present && all[1] == keys.live && all[2] == keys.removed && all[3 + j] == keys.fillers[j];
  }

  // ----- The store over which the write-back goes wrong -----

  /** The cache is over its load, `removed` is pending at the end of a cluster, and the shard of
      `present` holds nothing else. */
  function Before(cfg: Config, keys: Keys, shardNumber: nat, v: Value): RowStore
    requires cfg.cacheSize > 0 && shardNumber > 0
  {
    RowStore(Laid(cfg, keys.Entries()), Shards(cfg, keys, shardNumber, keys.PresentShard(v), keys.RemovedShard(v)))
  }

  /** A run comes to it. */
  lemma BeforeIsReached(cfg: Config, keys: Keys, shardNumber: nat, v: Value) returns (t: RowTrace)
    requires keys.Placed(cfg, shardNumber)
    ensures IsRowRun(t) && t.cfg == cfg && t.ops == Script(keys, v) + Gets(keys, |keys.fillers|)
    ensures Last(t) == Before(cfg, keys, shardNumber, v) && RowInv(cfg, Before(cfg, keys, shardNumber, v))
    ensures Housed(cfg, keys.Entries())
  {
    t := Fill(cfg, keys, shardNumber, v, |keys.fillers|);
    assert keys.Entries()[..3 + |keys.fillers|] == keys.Entries();
  }

  lemma BeforeIsHeavy(cfg: Config, keys: Keys, shardNumber: nat, v: Value)
    requires keys.Placed(cfg, shardNumber)
    ensures RowInv(cfg, Before(cfg, keys, shardNumber, v)) && Overloaded(Before(cfg, keys, shardNumber, v).slots)
    ensures Housed(cfg, keys.Entries())
  {
    var t := BeforeIsReached(cfg, keys, shardNumber, v);
    LaidIsRow(cfg, keys.Entries());
  }

  /** What a remove of the only key of a shard finds, over the load. */
  lemma LoneRemoveThen(cfg: Config, st: Store, key: Key, v: Value, victim: Option<Key>, p: nat)
    requires |st.shards| > 0 && p == ShardOf(cfg, st, key) && Heavy(cfg.cacheSize, st.cache)
    requires Lookup(st.cache, key) == Ptr(0x80) && st.shards[p] == ShardState(map[key := Ptr(0x80)], [v], 1)
    ensures var op := Remove(key);
            && !Puts(st, op) && Checked(cfg, st, op, victim) == Some(p) && ComesToRebuild(cfg, st, op, victim, p)
            && HeavyThen(cfg, st, op, victim) && WritesBackThen(cfg, st, op, victim, p)
            && !KnownGoneThen(cfg, st, op, victim, p)
  {
    assert IndexedThen(cfg, st, Remove(key), p, key) && TypeThen(cfg, st, Remove(key), victim, key) == DELETED;
    assert AliveThen(cfg, st, Remove(key), p) == 0 && SlotsThen(cfg, st, Remove(key), p) == 1;
  }

  lemma RemoveThen(cfg: Config, keys: Keys, shardNumber: nat, v: Value, victim: Option<Key>)
    requires keys.Placed(cfg, shardNumber)
    ensures var st, op, p := Abs(Before(cfg, keys, shardNumber, v)), Remove(keys.present),
                             Home(cfg.hash, keys.present, shardNumber);
            && !Puts(st, op) && Checked(cfg, st, op, victim) == Some(p) && ComesToRebuild(cfg, st, op, victim, p)
            && HeavyThen(cfg, st, op, victim) && WritesBackThen(cfg, st, op, victim, p)
            && !KnownGoneThen(cfg, st, op, victim, p)
  {
    var rs, p := Before(cfg, keys, shardNumber, v), Home(cfg.hash, keys.present, shardNumber);
    BeforeIsHeavy(cfg, keys, shardNumber, v);
    RowInvIsInv(cfg, rs);
    assert keys.Entries()[0] == Entry(keys.present, Ptr(0x80));
    LaidHolds(cfg, keys.Entries(), 0);
    LoneRemoveThen(cfg, Abs(rs), keys.present, v, victim, p);
  }

  /** With assertions the remove of `present` ends the program, whatever is drawn. */
  lemma ExampleStops(cfg: Config, keys: Keys, shardNumber: nat, v: Value, d: Draw, out: RowOutcome)
    requires keys.Placed(cfg, shardNumber) && cfg.asserts && RowInv(cfg, Before(cfg, keys, shardNumber, v))
    requires RowStep(cfg, Before(cfg, keys, shardNumber, v), Remove(keys.present), d, out)
    ensures out == RowStopped(WriteBackAssertion)
  {
    var rs, op := Before(cfg, keys, shardNumber, v), Remove(keys.present);
    RowInvIsInv(cfg, rs);
    RowStepIsStep(cfg, rs, op, d, out);
    CallStops(cfg, Abs(rs), op, ChoiceOf(cfg, rs, op, d), AbsOutcome(out));
    RemoveThen(cfg, keys, shardNumber, v, ChoiceOf(cfg, rs, op, d).victim);
  }

  // ----- The assertion on a key known to be gone -----

  lemma GetPrepares(cfg: Config, st: Store, key: Key, victim: Key)
    requires Linked(cfg, st) && Lookup(st.cache, key).IsEmpty() && !IndexPtr(cfg, st, key).IsPresent()
    requires victim in st.cache
    ensures var prepared := Prepare(cfg, st, Get(key), Some(victim));
            && prepared.Ready? && prepared.check == Some(ShardOf(cfg, st, victim))
            && prepared.store.shards == Pushed(cfg, st, Entry(victim, st.cache[victim])).shards
            && Lookup(prepared.store.cache, key) == NONEXISTENT_PTR
  {
  }

  lemma PushAsksNothing(cfg: Config, st: Store, displaced: Entry)
    requires |st.shards| > 0 && forall j :: 0 <= j < |st.shards| ==> !RebuildRequired(st.shards[j])
    ensures forall j :: 0 <= j < |st.shards| ==> !RebuildRequired(Pushed(cfg, st, displaced).shards[j])
  {
  }

  /** A get over the load, of a key that has no value, when its home slot is the one freed. */
  lemma HeavyGet(cfg: Config, rs: RowStore, key: Key, w: nat)
    requires RowInv(cfg, rs) && Overloaded(rs.slots) && Droppable(rs.slots, w)
    requires Home(cfg.hash, key, cfg.cacheSize) == w
    requires Lookup(Contents(rs.slots), key).IsEmpty() && !IndexPtr(cfg, Abs(rs), key).IsPresent()
    requires forall j :: 0 <= j < |rs.shards| ==> !RebuildRequired(rs.shards[j])
    ensures RowStep(cfg, rs, Get(key), Draw(Some(w), [], []),
                    RowRunning(RowStore(rs.slots[w := Entry(key, NONEXISTENT_PTR)],
                                        Pushed(cfg, Abs(rs), rs.slots[w]).shards)))
  {
    ContentsRepresents(rs.slots);
    RowPrepares(cfg, rs, Get(key), Draw(Some(w), [], []));
    GetPrepares(cfg, Abs(rs), key, rs.slots[w].key);
    StopSlotIs(cfg.hash, Freed(rs.slots, Some(w)), key, w);
    UpdatedTwice(rs.slots, w, FREE_ENTRY, Entry(key, NONEXISTENT_PTR));
    PushAsksNothing(cfg, Abs(rs), rs.slots[w]);
  }

  /** The shard of `removed` once the removal was pushed. */
  function PushedShard(keys: Keys, v: Value): ShardState {
    ShardState(map[keys.live := Ptr(0x80), keys.removed := Ptr(0x01)], [v, v], 1)
  }

  /** The store after `removed` was displaced and asked for again: the index has it deleted, and
      the cache knows it to be gone. */
  function Gone(cfg: Config, keys: Keys, shardNumber: nat, v: Value, known: Key): RowStore
    requires cfg.cacheSize > 0 && shardNumber > 0
  {
    var w := Home(cfg.hash, keys.removed, cfg.cacheSize);
    RowStore(Laid(cfg, keys.Entries())[w := Entry(known, NONEXISTENT_PTR)],
             Shards(cfg, keys, shardNumber, keys.PresentShard(v), PushedShard(keys, v)))
  }

  lemma NoneAsks(cfg: Config, keys: Keys, shardNumber: nat, v: Value, j: nat)
    requires keys.Placed(cfg, shardNumber) && j < shardNumber
    ensures !RebuildRequired(Shards(cfg, keys, shardNumber, keys.PresentShard(v), keys.RemovedShard(v))[j])
    ensures !RebuildRequired(Shards(cfg, keys, shardNumber, keys.PresentShard(v), PushedShard(keys, v))[j])
  {
  }

  /** Where `removed` lies, and that no other entry has its key or that of `spare`. */
  lemma RemovedSlot(cfg: Config, keys: Keys, shardNumber: nat)
    requires keys.Placed(cfg, shardNumber) && Housed(cfg, keys.Entries())
    ensures var slots, w := Laid(cfg, keys.Entries()), Home(cfg.hash, keys.removed, cfg.cacheSize);
            && slots[w] == Entry(keys.removed, Ptr(0x01)) && slots[Next(cfg.cacheSize, w)].IsFree()
            && Next(cfg.cacheSize, w) != w
            && (forall j :: 0 <= j < |slots| && !slots[j].IsFree() && j != w ==> slots[j].key != keys.removed)
            && (forall j :: 0 <= j < |slots| && !slots[j].IsFree() ==> slots[j].key != keys.spare)
  {
    var entries, w := keys.Entries(), Home(cfg.hash, keys.removed, cfg.cacheSize);
    assert entries[2] == Entry(keys.removed, Ptr(0x01));
    assert forall i :: 0 <= i < |entries| ==> entries[i].key == keys.All()[i];
    LaidAt(cfg, entries, w);
    LaidAt(cfg, entries, Next(cfg.cacheSize, w));
    LaidIsRow(cfg, entries);
    ContentsRepresents(Laid(cfg, entries));
    ContentsRepresents(entries);
    forall j | 0 <= j < cfg.cacheSize && !Laid(cfg, entries)[j].IsFree()
      ensures Laid(cfg, entries)[j].key != keys.spare
    {
      assert Holds(entries, Laid(cfg, entries)[j].key);
    }
  }

  /** `spare` is asked for, and displaces `removed`, whose removal is pushed. */
  lemma DisplacingStep(cfg: Config, keys: Keys, shardNumber: nat, v: Value)
    requires keys.Placed(cfg, shardNumber)
    ensures var rs, w := Before(cfg, keys, shardNumber, v), Home(cfg.hash, keys.removed, cfg.cacheSize);
            && RowInv(cfg, rs)
            && RowStep(cfg, rs, Get(keys.spare), Draw(Some(w), [], []),
                       RowRunning(Gone(cfg, keys, shardNumber, v, keys.spare)))
  {
    var rs, w := Before(cfg, keys, shardNumber, v), Home(cfg.hash, keys.removed, cfg.cacheSize);
    BeforeIsHeavy(cfg, keys, shardNumber, v);
    RemovedSlot(cfg, keys, shardNumber);
    UnknownKey(rs.slots, keys.spare);
    SpareIsAbsent(cfg, keys, shardNumber, v);
    forall j | 0 <= j < |rs.shards|
      ensures !RebuildRequired(rs.shards[j])
    {
      NoneAsks(cfg, keys, shardNumber, v, j);
    }
    HeavyGet(cfg, rs, keys.spare, w);
    RemovedIsPushed(cfg, keys, shardNumber, v);
  }

  lemma UnknownKey(slots: seq<Entry>, key: Key)
    requires DistinctKeys(slots) && forall j :: 0 <= j < |slots| && !slots[j].IsFree() ==> slots[j].key != key
    ensures Lookup(Contents(slots), key).IsEmpty()
  {
    ContentsRepresents(slots);
    assert !Holds(slots, key);
  }

  lemma SpareIsAbsent(cfg: Config, keys: Keys, shardNumber: nat, v: Value)
    requires keys.Placed(cfg, shardNumber)
    ensures !IndexPtr(cfg, Abs(Before(cfg, keys, shardNumber, v)), keys.spare).IsPresent()
  {
    var all := keys.All();
    assert all[0] == keys.present && all[1] == keys.live && all[2] == keys.removed;
  }

  lemma RemovedIsPushed(cfg: Config, keys: Keys, shardNumber: nat, v: Value)
    requires keys.Placed(cfg, shardNumber)
    ensures Pushed(cfg, Abs(Before(cfg, keys, shardNumber, v)), Entry(keys.removed, Ptr(0x01))).shards
            == Shards(cfg, keys, shardNumber, keys.PresentShard(v), PushedShard(keys, v))
  {
    var s := keys.RemovedShard(v);
    assert keys.All()[1] == keys.live && keys.All()[2] == keys.removed;
    assert MarkDeleted(s, keys.removed) == PushedShard(keys, v);
    ShardsUpdated(cfg, keys, shardNumber, keys.PresentShard(v), s, PushedShard(keys, v));
  }

  /** `removed` is asked for again, and displaces `spare`. */
  lemma AskedAgain(cfg: Config, keys: Keys, shardNumber: nat, v: Value)
    requires keys.Placed(cfg, shardNumber) && RowInv(cfg, Gone(cfg, keys, shardNumber, v, keys.spare))
    ensures RowStep(cfg, Gone(cfg, keys, shardNumber, v, keys.spare), Get(keys.removed),
                    Draw(Some(Home(cfg.hash, keys.removed, cfg.cacheSize)), [], []),
                    RowRunning(Gone(cfg, keys, shardNumber, v, keys.removed)))
  {
    var rs, w := Gone(cfg, keys, shardNumber, v, keys.spare), Home(cfg.hash, keys.removed, cfg.cacheSize);
    BeforeIsHeavy(cfg, keys, shardNumber, v);
    RemovedSlot(cfg, keys, shardNumber);
    UsedAfterUpdate(Laid(cfg, keys.Entries()), w, Entry(keys.spare, NONEXISTENT_PTR));
    assert keys.spare != keys.removed by {
      assert keys.All()[2] == keys.removed;
    }
    UnknownKey(rs.slots, keys.removed);
    forall j | 0 <= j < |rs.shards|
      ensures !RebuildRequired(rs.shards[j])
    {
      NoneAsks(cfg, keys, shardNumber, v, j);
    }
    HeavyGet(cfg, rs, keys.removed, w);
    UpdatedTwice(Laid(cfg, keys.Entries()), w,
                 Entry(keys.spare, NONEXISTENT_PTR), Entry(keys.removed, NONEXISTENT_PTR));
  }

  /** A run comes to the store on which the cache knows an indexed key to be gone. */
  lemma GoneIsReached(cfg: Config, keys: Keys, shardNumber: nat, v: Value) returns (t: RowTrace)
    requires keys.Placed(cfg, shardNumber)
    ensures IsRowRun(t) && t.cfg == cfg && RowInv(cfg, Gone(cfg, keys, shardNumber, v, keys.removed))
    ensures t.ops == Script(keys, v) + Gets(keys, |keys.fillers|) + [Get(keys.spare)] + [Get(keys.removed)]
    ensures Last(t) == Gone(cfg, keys, shardNumber, v, keys.removed)
  {
    var w := Home(cfg.hash, keys.removed, cfg.cacheSize);
    t := BeforeIsReached(cfg, keys, shardNumber, v);
    DisplacingStep(cfg, keys, shardNumber, v);
    t := GoOn(t, Get(keys.spare), Draw(Some(w), [], []), Gone(cfg, keys, shardNumber, v, keys.spare));
    AskedAgain(cfg, keys, shardNumber, v);
    t := GoOn(t, Get(keys.removed), Draw(Some(w), [], []), Gone(cfg, keys, shardNumber, v, keys.removed));
  }

  /** With assertions a remove of `live` ends the program there, whatever is drawn, at the
      assertion that the index has `removed` as nonexistent. */
  lemma ExampleAsserts(cfg: Config, keys: Keys, shardNumber: nat, v: Value, d: Draw, out: RowOutcome)
    requires keys.Placed(cfg, shardNumber) && cfg.asserts
    requires RowInv(cfg, Gone(cfg, keys, shardNumber, v, keys.removed))
    requires RowStep(cfg, Gone(cfg, keys, shardNumber, v, keys.removed), Remove(keys.live), d, out)
    ensures out == RowStopped(IndexAssertion)
  {
    var rs, op := Gone(cfg, keys, shardNumber, v, keys.removed), Remove(keys.live);
    RowInvIsInv(cfg, rs);
    RowStepIsStep(cfg, rs, op, d, out);
    CallStops(cfg, Abs(rs), op, ChoiceOf(cfg, rs, op, d), AbsOutcome(out));
    GoneIsCached(cfg, keys, shardNumber, v);
    LastRemoveThen(cfg, Abs(rs), keys, v, ChoiceOf(cfg, rs, op, d).victim, Home(cfg.hash, keys.removed, shardNumber));
  }

  lemma GoneIsCached(cfg: Config, keys: Keys, shardNumber: nat, v: Value)
    requires keys.Placed(cfg, shardNumber) && RowInv(cfg, Gone(cfg, keys, shardNumber, v, keys.removed))
    ensures var cache := Contents(Gone(cfg, keys, shardNumber, v, keys.removed).slots);
            Lookup(cache, keys.live) == Ptr(0x80) && Lookup(cache, keys.removed) == NONEXISTENT_PTR
  {
    var w, home := Home(cfg.hash, keys.removed, cfg.cacheSize), Home(cfg.hash, keys.live, cfg.cacheSize);
    var slots := Laid(cfg, keys.Entries())[w := Entry(keys.removed, NONEXISTENT_PTR)];
    BeforeIsHeavy(cfg, keys, shardNumber, v);
    LiveIsLaid(cfg, keys, shardNumber);
    SlotIsKnown(slots, home);
    SlotIsKnown(slots, w);
  }

  lemma LiveIsLaid(cfg: Config, keys: Keys, shardNumber: nat)
    requires keys.Placed(cfg, shardNumber) && Housed(cfg, keys.Entries())
    ensures Laid(cfg, keys.Entries())[Home(cfg.hash, keys.live, cfg.cacheSize)] == Entry(keys.live, Ptr(0x80))
    ensures Home(cfg.hash, keys.live, cfg.cacheSize) != Home(cfg.hash, keys.removed, cfg.cacheSize)
  {
    assert keys.Entries()[1] == Entry(keys.live, Ptr(0x80));
    assert keys.All()[1] == keys.live && keys.All()[2] == keys.removed;
    LaidAt(cfg, keys.Entries(), Home(cfg.hash, keys.live, cfg.cacheSize));
  }

  lemma SlotIsKnown(slots: seq<Entry>, p: nat)
    requires DistinctKeys(slots) && p < |slots| && !slots[p].IsFree()
    ensures Lookup(Contents(slots), slots[p].key) == slots[p].ptr
  {
    ContentsRepresents(slots);
  }

  lemma LastRemoveThen(cfg: Config, st: Store, keys: Keys, v: Value, victim: Option<Key>, r: nat)
    requires |st.shards| > 0 && r == ShardOf(cfg, st, keys.live) && st.shards[r] == PushedShard(keys, v)
    requires Lookup(st.cache, keys.live) == Ptr(0x80) && Lookup(st.cache, keys.removed) == NONEXISTENT_PTR
    ensures MeetsKnownGone(cfg, st, Remove(keys.live), victim)
  {
    assert AliveThen(cfg, st, Remove(keys.live), r) == 0 && SlotsThen(cfg, st, Remove(keys.live), r) == 2;
    assert keys.removed in st.shards[r].index;
    assert TypeThen(cfg, st, Remove(keys.live), victim, keys.removed) == NONEXISTENT;
  }
}
