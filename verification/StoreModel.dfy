/** The whole store as a value, and what one call does to it (src/KVS.cpp). The cache is the
    map it stands for; which entry it drops, in which order an index lists its entries, and
    what the write-back of a rebuild drops are choices. What holds for any choice of an entry
    is shown here and in the modules that follow; which entries the row of slots behind the map
    can drop is the matter of `StoreRow`. */
module StoreModel {
  import opened KeyValueTypes
  import opened LinearProbing
  import opened ShardModel
  import opened RebuildModel

  /** `asserts` tells a build in which assertions end the program from one in which they
      are compiled away. */
  datatype Config = Config(hash: Hasher, cacheSize: nat, asserts: bool)

  datatype Store = Store(cache: map<Key, Ptr>, shards: seq<ShardState>)

  datatype Op = Add(key: Key, value: Value) | Get(key: Key) | Remove(key: Key)

  datatype StopReason = ShardOverflow | IndexAssertion | WriteBackAssertion

  datatype Outcome = Running(store: Store) | Stopped(reason: StopReason)

  /** What a call leaves to chance: the entry its put displaces, the order of the entries of
      the shard it rebuilds, and the entries the write-back of that rebuild displaces. */
  datatype Choice = Choice(victim: Option<Key>, entries: seq<Entry>, victims: seq<Option<Key>>)

  function ShardOf(cfg: Config, st: Store, key: Key): (i: nat)
    requires |st.shards| > 0
    ensures i < |st.shards|
  {
    Home(cfg.hash, key, |st.shards|)
  }

  /** The pointer the index of the key's shard holds. */
  function IndexPtr(cfg: Config, st: Store, key: Key): Ptr
    requires |st.shards| > 0
  {
    Lookup(st.shards[ShardOf(cfg, st, key)].index, key)
  }

  // ----- The invariant -----

  /** What a cached pointer knows about the index. */
  predicate Coherent(cached: Ptr, indexed: Ptr) {
    && (cached.IsPresent() || cached.IsDeleted() ==> indexed.IsPresent() && cached.GetIndex() == indexed.GetIndex())
    && (cached.IsNonexistent() ==> !indexed.IsPresent())
  }

  /** Present in the index, and no removal is pending in the cache. */
  predicate Live(cache: map<Key, Ptr>, index: map<Key, Ptr>, key: Key) {
    Lookup(index, key).IsPresent() && !Lookup(cache, key).IsDeleted()
  }

  function LiveKeys(cache: map<Key, Ptr>, index: map<Key, Ptr>): set<Key> {
    set k | k in index && Live(cache, index, k)
  }

  ghost predicate ShardsOk(cfg: Config, st: Store) {
    && |st.shards| > 0
    && (forall i :: 0 <= i < |st.shards| ==> ShardInv(st.shards[i]))
    && (forall i, k :: 0 <= i < |st.shards| && k in st.shards[i].index ==> ShardOf(cfg, st, k) == i)
  }

  ghost predicate CacheOk(cfg: Config, st: Store)
    requires |st.shards| > 0
  {
    forall k :: k in st.cache ==> !st.cache[k].IsEmpty() && Coherent(st.cache[k], IndexPtr(cfg, st, k))
  }

  /** The counter of every shard is the number of its live keys. */
  ghost predicate CountersOk(st: Store) {
    forall i :: 0 <= i < |st.shards| ==> st.shards[i].alive == |LiveKeys(st.cache, st.shards[i].index)|
  }

  /** The cache agrees with the indexes, the values are owned singly, and every key lies in
      its shard. */
  ghost predicate Linked(cfg: Config, st: Store) {
    ShardsOk(cfg, st) && CacheOk(cfg, st)
  }

  /** What every state of every run keeps. The counters are right besides exactly if no
      removal was lost. */
  ghost predicate Inv(cfg: Config, st: Store) {
    Linked(cfg, st) && 3 * |st.cache| <= 2 * cfg.cacheSize + 3
  }

  /** The value of a key: the cache answers if it knows the key, and otherwise the shard does. */
  function Meaning(cfg: Config, st: Store, key: Key): Option<Value>
    requires |st.shards| > 0
  {
    var cached, s := Lookup(st.cache, key), st.shards[ShardOf(cfg, st, key)];
    if cached.IsEmpty() then Stored(s, key)
    else if cached.IsPresent() && cached.GetIndex() < |s.values| then Some(s.values[cached.GetIndex()])
    else None
  }

  // ----- The cache -----

  /** The put that is about to happen displaces this key, or none. Any cached key will do. */
  ghost predicate ValidVictim(cacheSize: nat, cache: map<Key, Ptr>, victim: Option<Key>) {
    && (victim.Some? <==> Heavy(cacheSize, cache))
    && (victim.Some? ==> victim.value in cache)
  }

  predicate Heavy(cacheSize: nat, cache: map<Key, Ptr>) {
    3 * |cache| > 2 * cacheSize
  }

  function CachePut(cache: map<Key, Ptr>, e: Entry, victim: Option<Key>): map<Key, Ptr> {
    (if victim.Some? then cache - {victim.value} else cache)[e.key := e.ptr]
  }

  // ----- One call, up to the rebuild it may end with -----

  /** `check` is the shard whose need for a rebuild is looked at last. */
  datatype Prepared = Ready(store: Store, check: Option<nat>) | Overflow

  function WithShardAt(st: Store, i: nat, s: ShardState): Store
    requires i < |st.shards|
  {
    st.(shards := st.shards[i := s])
  }

  function WithShard(cfg: Config, st: Store, key: Key, s: ShardState): Store
    requires |st.shards| > 0
  {
    WithShardAt(st, ShardOf(cfg, st, key), s)
  }

  /** The push of a displaced entry: only a removal has to reach the index. */
  function Pushed(cfg: Config, st: Store, displaced: Entry): Store
    requires |st.shards| > 0
  {
    if displaced.ptr.IsDeleted()
    then WithShard(cfg, st, displaced.key, MarkDeleted(st.shards[ShardOf(cfg, st, displaced.key)], displaced.key))
    else st
  }

  /** The put, and the push of what it displaces. */
  function PutAndPush(cfg: Config, st: Store, e: Entry, victim: Option<Key>): Prepared
    requires |st.shards| > 0
  {
    var put := st.(cache := CachePut(st.cache, e, victim));
    if victim.None? then Ready(put, None)
    else
      Ready(Pushed(cfg, put, Entry(victim.value, Lookup(st.cache, victim.value))),
            Some(ShardOf(cfg, st, victim.value)))
  }

  function Prepare(cfg: Config, st: Store, op: Op, victim: Option<Key>): Prepared
    requires Linked(cfg, st)
  {
    var i, key := ShardOf(cfg, st, op.key), op.key;
    var s, cached := st.shards[i], Lookup(st.cache, key);
    match op
    case Add(_, value) => (
      match cached.GetType()
      case PRESENT => Ready(WithShard(cfg, st, key, WriteDirectly(s, cached, value)), None)
      case DELETED =>
        var written := WriteDirectly(s, cached, value);
        var cache := st.cache[key := cached.SetValuePresent(true)];
        Ready(WithShard(cfg, st, key, written.(alive := Increment(s.alive))).(cache := cache), None)
      case _ =>
        if Overflows(s, key) then Overflow
        else
          var (written, ptr) := WriteValue(s, key, value);
          PutAndPush(cfg, WithShard(cfg, st, key, written), Entry(key, ptr), victim))
    case Get(_) =>
      if !cached.IsEmpty() then Ready(st, None)
      else
        var found := Lookup(s.index, key);
        PutAndPush(cfg, st, Entry(key, if found.IsPresent() then found else NONEXISTENT_PTR), victim)
    case Remove(_) => (
      match cached.GetType()
      case PRESENT =>
        var cache := st.cache[key := cached.SetValuePresent(false)];
        Ready(WithShard(cfg, st, key, s.(alive := Decrement(s.alive))).(cache := cache), Some(i))
      case EMPTY =>
        PutAndPush(cfg, WithShard(cfg, st, key, RemoveEntry(s, key)), Entry(key, NONEXISTENT_PTR), victim)
      case _ => Ready(st, None))
  }

  /** The call puts an entry into the cache. */
  predicate Puts(st: Store, op: Op) {
    var cached := Lookup(st.cache, op.key);
    cached.IsEmpty() || (op.Add? && cached.IsNonexistent())
  }

  function Result(cfg: Config, st: Store, op: Op): Option<Value>
    requires |st.shards| > 0
  {
    if op.Get? then Meaning(cfg, st, op.key) else None
  }

  // ----- The rebuild -----

  function RebuiltShard(r: Rebuilt): ShardState {
    ShardState(r.index, r.values, |r.index| % 256)
  }

  /** The write-back of the updates, put after put. */
  function AfterWriteBack(cache: map<Key, Ptr>, updates: seq<Entry>, victims: seq<Option<Key>>): map<Key, Ptr>
    requires |updates| == |victims|
  {
    if updates == [] then cache
    else
      var last := |updates| - 1;
      CachePut(AfterWriteBack(cache, updates[..last], victims[..last]), updates[last], victims[last])
  }

  ghost predicate ValidVictims(cacheSize: nat, cache: map<Key, Ptr>, updates: seq<Entry>, victims: seq<Option<Key>>)
    requires |updates| == |victims|
  {
    updates != [] ==>
      var last := |updates| - 1;
      && ValidVictims(cacheSize, cache, updates[..last], victims[..last])
      && ValidVictim(cacheSize, AfterWriteBack(cache, updates[..last], victims[..last]), victims[last])
  }

  ghost predicate NoneDisplaced(victims: seq<Option<Key>>) {
    forall j :: 0 <= j < |victims| ==> victims[j].None?
  }

  /** Without assertions the write-back goes through all updates and forgets what it
      displaces; with assertions it ends at the first displaced entry. */
  ghost predicate WriteBack(cfg: Config, cache: map<Key, Ptr>, updates: seq<Entry>, victims: seq<Option<Key>>,
                            stopped: bool) {
    && |victims| <= |updates|
    && ValidVictims(cfg.cacheSize, cache, updates[..|victims|], victims)
    && if stopped
       then cfg.asserts && victims != [] && victims[|victims| - 1].Some? && NoneDisplaced(victims[..|victims| - 1])
       else |victims| == |updates| && (cfg.asserts ==> NoneDisplaced(victims))
  }

  /** Some key of the index is known to the cache as gone: the case in which the rebuild asserts
      that the index entry is of the type a table never holds. */
  ghost predicate KnownGone(st: Store, i: nat)
    requires i < |st.shards|
  {
    exists k :: k in st.shards[i].index && Lookup(st.cache, k).IsNonexistent()
  }

  ghost predicate RebuildStep(cfg: Config, st: Store, i: nat, ch: Choice, out: Outcome)
    requires i < |st.shards| && ShardInv(st.shards[i])
  {
    && Enumerates(ch.entries, st.shards[i].index)
    && (ShardIsReadable(st.shards[i], ch.entries);
        if cfg.asserts && KnownGone(st, i) then out == Stopped(IndexAssertion)
        else
          var r := RebuildFrom(st.shards[i].values, st.cache, ch.entries);
          match out
          case Stopped(reason) =>
            reason == WriteBackAssertion && WriteBack(cfg, st.cache, r.updates, ch.victims, true)
          case Running(next) =>
            && WriteBack(cfg, st.cache, r.updates, ch.victims, false)
            && next.cache == AfterWriteBack(st.cache, r.updates, ch.victims)
            && next.shards == st.shards[i := RebuiltShard(r)])
  }

  lemma ShardIsReadable(s: ShardState, entries: seq<Entry>)
    requires ShardInv(s) && Enumerates(entries, s.index)
    ensures Readable(entries, |s.values|)
  {
    EnumeratesPrefix(entries, s.index, |entries|);
    ContentsRepresents(entries);
  }
}
