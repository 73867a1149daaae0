/** What a rebuild can lose: the write-back frees at most one slot for good, and it is one that
    could be freed to begin with. */
module StoreLosses {
  import opened KeyValueTypes
  import opened LinearProbing
  import opened CacheRow
  import opened ShardModel
  import opened RebuildModel
  import opened StoreModel
  import opened StoreRebuild
  import opened StoreRuns
  import opened StoreRow
  import opened StoreStops

  // ----- The layout of the row under a write-back -----

  /** The same slots are free, and the others carry the same keys. */
  ghost predicate SameLayout(a: seq<Entry>, b: seq<Entry>) {
    && |a| == |b|
    && (forall j :: 0 <= j < |a| ==> (a[j].IsFree() <==> b[j].IsFree()))
    && (forall j :: 0 <= j < |a| && !a[j].IsFree() ==> a[j].key == b[j].key)
  }

  lemma {:induction false} LayoutKeys(a: seq<Entry>, b: seq<Entry>)
    requires SameLayout(a, b)
    ensures Contents(a).Keys == Contents(b).Keys && Used(a) == Used(b)
  {
    if a != [] {
      var last := |a| - 1;
      LayoutKeys(a[..last], b[..last]);
    }
  }

  lemma LayoutDroppable(a: seq<Entry>, b: seq<Entry>, v: nat)
    requires SameLayout(a, b)
    ensures Droppable(a, v) <==> Droppable(b, v)
  {
  }

  /** The row is laid out as it was, or with one slot freed that could be freed, and then the
      load is kept. */
  ghost predicate LaidOut(slots: seq<Entry>, row: seq<Entry>, gap: Option<nat>) {
    && SameLayout(Freed(slots, gap), row)
    && (gap.Some? ==> Droppable(slots, gap.value) && !Overloaded(row))
  }

  /** A put of a key of the original row, one that is there or the one that was freed. */
  lemma PutKeepsLayout(hash: Hasher, slots: seq<Entry>, row: seq<Entry>, gap: Option<nat>, e: Entry, drop: Option<nat>)
    returns (gap': Option<nat>)
    requires RowOk(hash, slots) && RowOk(hash, row) && |slots| >= 4 && LaidOut(slots, row, gap)
    requires e.key in Contents(slots) && !e.IsFree() && ValidDrop(row, drop)
    ensures LaidOut(slots, RowPut(hash, row, e, drop), gap')
  {
    var p := SlotOf(slots, e.key);
    if gap == Some(p) {
      PutBack(hash, slots, row, e, p);
      gap' := None;
    } else if drop.None? || drop.value == p {
      assert Freed(slots, gap)[p] == slots[p];
      PutInPlace(hash, row, e, drop, p);
      OverwrittenLayout(Freed(slots, gap), row, e, p);
      gap' := gap;
    } else {
      LayoutDroppable(slots, row, drop.value);
      RealDrop(hash, slots, row, e, drop.value, p);
      gap' := drop;
    }
  }

  lemma OverwrittenLayout(a: seq<Entry>, b: seq<Entry>, e: Entry, p: nat)
    requires SameLayout(a, b) && p < |a| && !a[p].IsFree() && a[p].key == e.key && !e.IsFree()
    ensures SameLayout(a, b[p := e]) && (Overloaded(b[p := e]) <==> Overloaded(b))
  {
    UsedAfterUpdate(b, p, e);
  }

  /** The key that was freed goes back to its slot. */
  lemma PutBack(hash: Hasher, slots: seq<Entry>, row: seq<Entry>, e: Entry, p: nat)
    requires WellProbed(hash, slots) && p < |slots| && !slots[p].IsFree() && slots[p].key == e.key && !e.IsFree()
    requires SameLayout(slots[p := FREE_ENTRY], row)
    ensures RowPut(hash, row, e, None) == row[p := e] && SameLayout(slots, row[p := e])
  {
    var freed, home := slots[p := FREE_ENTRY], Home(hash, e.key, |slots|);
    forall j {:trigger InArc(home, j, p)} | 0 <= j < |row| && InArc(home, j, p)
      ensures !row[j].IsFree() && row[j].key != e.key
    {
      assert InArc(Home(hash, slots[p].key, |slots|), j, p);
      assert freed[j] == slots[j];
    }
    StopSlotIs(hash, row, e.key, p);
  }

  /** A put that displaces another key takes the load off the row. */
  lemma RealDrop(hash: Hasher, slots: seq<Entry>, row: seq<Entry>, e: Entry, v: nat, p: nat)
    requires RowOk(hash, slots) && RowOk(hash, row) && SameLayout(slots, row) && Droppable(slots, v)
    requires p < |slots| && p != v && !slots[p].IsFree() && slots[p].key == e.key && !e.IsFree()
    ensures LaidOut(slots, RowPut(hash, row, e, Some(v)), Some(v))
  {
    var freed := row[v := FREE_ENTRY];
    FreeLastOfCluster(hash, row, v);
    assert SameLayout(slots[v := FREE_ENTRY], freed);
    PutInPlace(hash, freed, e, None, p);
    OverwrittenLayout(slots[v := FREE_ENTRY], freed, e, p);
    assert RowPut(hash, row, e, Some(v)) == RowPut(hash, freed, e, None);
  }

  /** However the write-back displaces, it ends with the old layout or short of one entry that
      could be displaced to begin with. */
  lemma {:induction false} WrittenLayout(hash: Hasher, slots: seq<Entry>, updates: seq<Entry>, drops: seq<Option<nat>>)
    returns (gap: Option<nat>)
    requires RowOk(hash, slots) && |slots| >= 4 && AllTaken(updates)
    requires forall j :: 0 <= j < |updates| ==> updates[j].key in Contents(slots)
    requires |updates| == |drops| && ValidDrops(hash, slots, updates, drops)
    ensures LaidOut(slots, RowWritten(hash, slots, updates, drops), gap)
  {
    gap := None;
    if updates != [] {
      var last := |updates| - 1;
      var before := WrittenLayout(hash, slots, updates[..last], drops[..last]);
      RowWrittenIs(hash, slots, updates[..last], drops[..last]);
      gap := PutKeepsLayout(hash, slots, RowWritten(hash, slots, updates[..last], drops[..last]), before,
                            updates[last], drops[last]);
    }
  }

  // ----- Draws exist -----

  lemma {:induction false} Enumeration(m: map<Key, Ptr>) returns (entries: seq<Entry>)
    requires forall k :: k in m ==> !m[k].IsEmpty()
    ensures Enumerates(entries, m)
    decreases |m|
  {
    if m == map[] {
      entries := [];
    } else {
      var k :| k in m;
      var rest := Enumeration(m - {k});
      EnumeratesOneMore(rest, m - {k}, Entry(k, m[k]));
      entries := rest + [Entry(k, m[k])];
      assert (m - {k})[k := m[k]] == m;
    }
  }

  /** The entries of an index in some order. */
  lemma ShardOrder(s: ShardState) returns (entries: seq<Entry>)
    requires ShardInv(s)
    ensures Enumerates(entries, s.index)
  {
    entries := Enumeration(s.index);
  }

  /** Any first slot that can be freed can be followed up to the end of the write-back. */
  lemma {:induction false} DropsFrom(hash: Hasher, slots: seq<Entry>, updates: seq<Entry>, first: Option<nat>)
    returns (drops: seq<Option<nat>>)
    requires RowOk(hash, slots) && |slots| >= 4 && AllTaken(updates) && updates != [] && ValidDrop(slots, first)
    ensures |drops| == |updates| && drops[0] == first && ValidDrops(hash, slots, updates, drops)
  {
    var last := |updates| - 1;
    if last == 0 {
      drops := [first];
      assert drops[..0] == [] && updates[..0] == [];
    } else {
      var earlier := DropsFrom(hash, slots, updates[..last], first);
      RowWrittenIs(hash, slots, updates[..last], earlier);
      NeverFull(hash, RowWritten(hash, slots, updates[..last], earlier));
      var drop := SomeDrop(RowWritten(hash, slots, updates[..last], earlier));
      drops := earlier + [drop];
      assert drops[..last] == earlier;
    }
  }

  // ----- What a rebuild can lose -----

  /** The slot can be freed, and holds a removal pending for another shard. */
  predicate Exposed(cfg: Config, rs: RowStore, i: nat, w: nat)
    requires |rs.shards| > 0
  {
    && Droppable(rs.slots, w) && rs.slots[w].ptr.IsDeleted()
    && Home(cfg.hash, rs.slots[w].key, |rs.shards|) != i
  }

  /** Whatever its write-back frees, the rebuild that goes through the entries in this order
      loses no removal. */
  ghost predicate RebuildIsSafe(cfg: Config, rs: RowStore, i: nat, entries: seq<Entry>)
    requires RowInv(cfg, rs) && i < |rs.shards|
  {
    forall d: Draw, next :: d.entries == entries && RowRebuild(cfg, rs, i, d, RowRunning(next)) ==>
      !RemovalLost(cfg, Abs(rs), i, Contents(next.slots))
  }

  /** Without assertions a rebuild is safe, in whatever order it goes through the entries,
      exactly if the cache is below its load, or there is nothing to write back, or no removal
      pending for another shard lies at the end of a cluster. */
  lemma RebuildIsSafeExactly(cfg: Config, rs: RowStore, i: nat, entries: seq<Entry>)
    requires RowInv(cfg, rs) && i < |rs.shards| && !cfg.asserts && Enumerates(entries, rs.shards[i].index)
    ensures RebuildIsSafe(cfg, rs, i, entries)
            <==> !Overloaded(rs.slots) || !HasUpdates(Abs(rs), i) || forall w :: !Exposed(cfg, rs, i, w)
  {
    if w :| Overloaded(rs.slots) && HasUpdates(Abs(rs), i) && Exposed(cfg, rs, i, w) {
      ExposedIsUnsafe(cfg, rs, i, w, entries);
    } else {
      forall d: Draw, next | d.entries == entries && RowRebuild(cfg, rs, i, d, RowRunning(next))
        ensures !RemovalLost(cfg, Abs(rs), i, Contents(next.slots))
      {
        SafeRebuild(cfg, rs, i, d, next);
      }
    }
  }

  lemma ExposedIsUnsafe(cfg: Config, rs: RowStore, i: nat, w: nat, entries: seq<Entry>)
    requires RowInv(cfg, rs) && i < |rs.shards| && !cfg.asserts && Enumerates(entries, rs.shards[i].index)
    requires Overloaded(rs.slots) && HasUpdates(Abs(rs), i) && Exposed(cfg, rs, i, w)
    ensures !RebuildIsSafe(cfg, rs, i, entries)
  {
    var d, next := LosingRebuild(cfg, rs, i, w, None, entries);
    assert RemovalLost(cfg, Abs(rs), i, Contents(next.slots));
  }

  lemma SafeRebuild(cfg: Config, rs: RowStore, i: nat, d: Draw, next: RowStore)
    requires RowInv(cfg, rs) && i < |rs.shards| && RowRebuild(cfg, rs, i, d, RowRunning(next))
    requires !Overloaded(rs.slots) || !HasUpdates(Abs(rs), i) || forall w :: !Exposed(cfg, rs, i, w)
    ensures !RemovalLost(cfg, Abs(rs), i, Contents(next.slots))
  {
    if !Overloaded(rs.slots) || !HasUpdates(Abs(rs), i) {
      RowInvIsInv(cfg, rs);
      RowRebuildIsRebuild(cfg, rs, i, d, RowRunning(next), None);
      NothingLost(cfg, Abs(rs), i, Choice(None, d.entries, RebuildVictims(cfg, rs, i, d)), Abs(next));
    } else {
      forall k
        ensures !Forgotten(cfg, Abs(rs), i, Contents(next.slots), k)
      {
        if Forgotten(cfg, Abs(rs), i, Contents(next.slots), k) {
          var w := ForgottenWasExposed(cfg, rs, i, d, next, k);
        }
      }
    }
  }

  /** A removal that a rebuild forgets was at the end of a cluster when it began. */
  lemma ForgottenWasExposed(cfg: Config, rs: RowStore, i: nat, d: Draw, next: RowStore, k: Key) returns (w: nat)
    requires RowInv(cfg, rs) && i < |rs.shards| && RowRebuild(cfg, rs, i, d, RowRunning(next))
    requires Forgotten(cfg, Abs(rs), i, Contents(next.slots), k)
    requires !(cfg.asserts && KnownGone(Abs(rs), i))
    ensures Exposed(cfg, rs, i, w) && rs.slots[w].key == k
  {
    var p := SlotOf(rs.slots, k);
    UpdatesAreCached(cfg, Abs(rs), i, d.entries);
    var updates := Compacted(Abs(rs), i, d.entries).updates;
    UpdatedKeysAreCached(updates, rs.slots);
    assert updates[..|d.drops|] == updates;
    var gap := WrittenLayout(cfg.hash, rs.slots, updates, d.drops);
    w := MissingWasDropped(rs.slots, next.slots, gap, k, p);
  }

  lemma UpdatedKeysAreCached(updates: seq<Entry>, slots: seq<Entry>)
    requires Enumerates(updates, Contents(updates)) && Contents(updates).Keys <= Contents(slots).Keys
    ensures forall j :: 0 <= j < |updates| ==> updates[j].key in Contents(slots)
  {
    ContentsRepresents(updates);
  }

  lemma MissingWasDropped(slots: seq<Entry>, row: seq<Entry>, gap: Option<nat>, k: Key, p: nat) returns (w: nat)
    requires DistinctKeys(slots) && LaidOut(slots, row, gap) && k !in Contents(row)
    requires p < |slots| && !slots[p].IsFree() && slots[p].key == k && k in Contents(slots)
    ensures w == p && Droppable(slots, p)
  {
    w := p;
    LayoutKeys(Freed(slots, gap), row);
    if gap.Some? {
      FreedContents(slots, gap.value);
    }
  }

  /** From such a slot a losing draw can be made, in whatever order the entries come. */
  lemma LosingRebuild(cfg: Config, rs: RowStore, i: nat, w: nat, drop: Option<nat>, entries: seq<Entry>)
    returns (d: Draw, next: RowStore)
    requires RowInv(cfg, rs) && i < |rs.shards| && !cfg.asserts && Enumerates(entries, rs.shards[i].index)
    requires Overloaded(rs.slots) && HasUpdates(Abs(rs), i) && Exposed(cfg, rs, i, w)
    ensures RowRebuild(cfg, rs, i, d, RowRunning(next))
    ensures Forgotten(cfg, Abs(rs), i, Contents(next.slots), rs.slots[w].key)
    ensures d.drop == drop && d.entries == entries
  {
    UpdatesAreCached(cfg, Abs(rs), i, entries);
    var r := Compacted(Abs(rs), i, entries);
    var drops := DropsFrom(cfg.hash, rs.slots, r.updates, Some(w));
    d := Draw(drop, entries, drops);
    next := RowStore(RowWritten(cfg.hash, rs.slots, r.updates, drops), rs.shards[i := RebuiltShard(r)]);
    assert r.updates[..|drops|] == r.updates;
    ContentsRepresents(rs.slots);
    ForeignIsNotWritten(cfg, rs, i, entries, rs.slots[w].key);
    DroppedStaysOut(cfg.hash, rs.slots, r.updates, drops, w);
  }

  lemma ForeignIsNotWritten(cfg: Config, rs: RowStore, i: nat, entries: seq<Entry>, k: Key)
    requires Linked(cfg, Abs(rs)) && i < |rs.shards| && Enumerates(entries, rs.shards[i].index)
    requires ShardOf(cfg, Abs(rs), k) != i
    ensures Readable(entries, |rs.shards[i].values|)
    ensures forall j :: 0 <= j < |Compacted(Abs(rs), i, entries).updates| ==>
              Compacted(Abs(rs), i, entries).updates[j].key != k
  {
    CompactionKeepsLiveKeys(cfg, Abs(rs), i, entries);
    ContentsRepresents(Compacted(Abs(rs), i, entries).updates);
  }

  /** A key that is displaced first and not written back is out of the cache at the end. */
  lemma {:induction false} DroppedStaysOut(hash: Hasher, slots: seq<Entry>, updates: seq<Entry>,
                                           drops: seq<Option<nat>>, w: nat)
    requires RowOk(hash, slots) && |slots| >= 4 && AllTaken(updates)
    requires |updates| == |drops| && updates != [] && ValidDrops(hash, slots, updates, drops)
    requires drops[0] == Some(w) && w < |slots|
    requires forall j :: 0 <= j < |updates| ==> updates[j].key != slots[w].key
    ensures slots[w].key !in Contents(RowWritten(hash, slots, updates, drops))
  {
    var last := |updates| - 1;
    var row := RowWritten(hash, slots, updates[..last], drops[..last]);
    if last == 0 {
      assert row == slots;
    } else {
      DroppedStaysOut(hash, slots, updates[..last], drops[..last], w);
    }
    RowWrittenIs(hash, slots, updates[..last], drops[..last]);
    RowPutIsPut(hash, row, updates[last], drops[last]);
  }

  // ----- What a call can lose -----

  /** The slot is free once the put of the call has freed one slot and taken one. */
  predicate FreeThen(cfg: Config, rs: RowStore, op: Op, drop: Option<nat>, slot: nat)
    requires slot < |rs.slots|
  {
    && slot != StopSlot(cfg.hash, Freed(rs.slots, drop), op.key)
    && (rs.slots[slot].IsFree() || drop == Some(slot))
  }

  /** A removal pending for another shard than `i` lies before such a slot. */
  predicate ExposedThen(cfg: Config, rs: RowStore, op: Op, drop: Option<nat>, i: nat, w: nat)
    requires |rs.shards| > 0
  {
    && w < |rs.slots| && drop != Some(w) && rs.slots[w].ptr.IsDeleted()
    && Home(cfg.hash, rs.slots[w].key, |rs.shards|) != i
    && FreeThen(cfg, rs, op, drop, Next(|rs.slots|, w))
  }

  /** With this slot freed by its put the call can lose a removal: it comes to a rebuild with the
      cache over its load and something to write back, and a removal of another shard lies at
      the end of a cluster. */
  ghost predicate CanLose(cfg: Config, rs: RowStore, op: Op, drop: Option<nat>)
    requires |rs.shards| > 0
  {
    var st, victim := Abs(rs), VictimOf(rs.slots, drop);
    var check := Checked(cfg, st, op, victim);
    && check.Some? && ComesToRebuild(cfg, st, op, victim, check.value)
    && HeavyThen(cfg, st, op, victim) && WritesBackThen(cfg, st, op, victim, check.value)
    && exists w :: ExposedThen(cfg, rs, op, DropOf(rs, op, drop), check.value, w)
  }

  ghost predicate FitsDrop(rs: RowStore, op: Op, drop: Option<nat>) {
    Puts(Abs(rs), op) ==> ValidDrop(rs.slots, drop)
  }

  /** Whatever is drawn, the call loses no removal. */
  ghost predicate CallIsSafe(cfg: Config, rs: RowStore, op: Op)
    requires RowInv(cfg, rs)
  {
    forall d, next :: RowStep(cfg, rs, op, d, RowRunning(next)) ==>
      !Loses(cfg, Abs(rs), op, ChoiceOf(cfg, rs, op, d), Abs(next))
  }

  /** Without assertions a call is safe exactly if none of the slots that its put may free leads
      to such a rebuild. If one does, the order of the entries does not help. */
  lemma CallIsSafeExactly(cfg: Config, rs: RowStore, op: Op)
    requires RowInv(cfg, rs) && !cfg.asserts
    ensures CallIsSafe(cfg, rs, op) <==> forall drop :: FitsDrop(rs, op, drop) ==> !CanLose(cfg, rs, op, drop)
    ensures forall drop, entries :: FitsDrop(rs, op, drop) && CanLose(cfg, rs, op, drop)
                                    && OrdersCheckedShard(cfg, rs, op, drop, entries) ==>
              LosesWith(cfg, rs, op, drop, entries)
  {
    forall drop, entries | FitsDrop(rs, op, drop) && CanLose(cfg, rs, op, drop)
                           && OrdersCheckedShard(cfg, rs, op, drop, entries)
      ensures LosesWith(cfg, rs, op, drop, entries)
    {
      var d, next := LosingCall(cfg, rs, op, drop, entries);
    }
    if drop :| FitsDrop(rs, op, drop) && CanLose(cfg, rs, op, drop) {
      var entries := SomeOrder(cfg, rs, op, drop);
      var d, next := LosingCall(cfg, rs, op, drop, entries);
    } else {
      forall d, next | RowStep(cfg, rs, op, d, RowRunning(next))
        ensures !Loses(cfg, Abs(rs), op, ChoiceOf(cfg, rs, op, d), Abs(next))
      {
        SafeCall(cfg, rs, op, d, next);
      }
    }
  }

  /** The entries of the shard that the call looks at last, as they are by then, in some order. */
  ghost predicate OrdersCheckedShard(cfg: Config, rs: RowStore, op: Op, drop: Option<nat>, entries: seq<Entry>)
    requires RowInv(cfg, rs)
  {
    var prepared := Prepare(cfg, Abs(rs), op, VictimOf(rs.slots, drop));
    && prepared.Ready? && prepared.check.Some? && prepared.check.value < |prepared.store.shards|
    && Enumerates(entries, prepared.store.shards[prepared.check.value].index)
  }

  /** With this slot freed and the entries in this order some write-back loses a removal. */
  ghost predicate LosesWith(cfg: Config, rs: RowStore, op: Op, drop: Option<nat>, entries: seq<Entry>)
    requires RowInv(cfg, rs)
  {
    exists d: Draw, next :: d.drop == drop && d.entries == entries && RowStep(cfg, rs, op, d, RowRunning(next))
                      && Loses(cfg, Abs(rs), op, ChoiceOf(cfg, rs, op, d), Abs(next))
  }

  /** The row with which the call comes to its rebuild. */
  ghost function ReadyRow(cfg: Config, rs: RowStore, op: Op, drop: Option<nat>): RowStore
    requires RowInv(cfg, rs) && FitsDrop(rs, op, drop)
    requires Prepare(cfg, Abs(rs), op, VictimOf(rs.slots, drop)).Ready?
  {
    RowReady(cfg, rs, op, DropOf(rs, op, drop), Prepare(cfg, Abs(rs), op, VictimOf(rs.slots, drop)).store)
  }

  /** The call is ready and will look at shard `j`. */
  ghost predicate WillCheck(cfg: Config, rs: RowStore, op: Op, drop: Option<nat>, j: nat)
    requires RowInv(cfg, rs)
  {
    var prepared := Prepare(cfg, Abs(rs), op, VictimOf(rs.slots, drop));
    FitsDrop(rs, op, drop) && prepared.Ready? && prepared.check == Some(j)
  }

  lemma ReadyRowThen(cfg: Config, rs: RowStore, op: Op, drop: Option<nat>, j: nat)
    requires RowInv(cfg, rs) && WillCheck(cfg, rs, op, drop, j)
    ensures var ready, st, victim := ReadyRow(cfg, rs, op, drop), Abs(rs), VictimOf(rs.slots, drop);
            && RowInv(cfg, ready) && j < |ready.shards| == |rs.shards| && Checked(cfg, st, op, victim) == Some(j)
            && Abs(ready) == Prepare(cfg, st, op, victim).store
            && (Rebuilds(Abs(ready), Some(j)) <==> ComesToRebuild(cfg, st, op, victim, j))
            && (Overloaded(ready.slots) <==> HeavyThen(cfg, st, op, victim))
            && (HasUpdates(Abs(ready), j) <==> WritesBackThen(cfg, st, op, victim, j))
  {
    var st, victim := Abs(rs), VictimOf(rs.slots, drop);
    RowInvIsInv(cfg, rs);
    RowPrepares(cfg, rs, op, Draw(drop, [], []));
    CheckedThen(cfg, st, op, victim);
    ReadyThen(cfg, st, op, victim, j);
    RowInvIsInv(cfg, ReadyRow(cfg, rs, op, drop));
  }

  /** The row at the rebuild, in terms of the row before the call. */
  lemma ExposedIsThen(cfg: Config, rs: RowStore, op: Op, drop: Option<nat>, j: nat, w: nat)
    requires RowInv(cfg, rs) && WillCheck(cfg, rs, op, drop, j) && |ReadyRow(cfg, rs, op, drop).shards| == |rs.shards|
    ensures Exposed(cfg, ReadyRow(cfg, rs, op, drop), j, w) <==> ExposedThen(cfg, rs, op, DropOf(rs, op, drop), j, w)
  {
    var ready := ReadyRow(cfg, rs, op, drop);
    var ptr := Lookup(Prepare(cfg, Abs(rs), op, VictimOf(rs.slots, drop)).store.cache, op.key);
    OwnKeyIsNotForeign(cfg, rs, op, drop, j);
    OwnKeyWasNotForeign(cfg, rs, op, drop, j);
    LandingStops(cfg, rs, op, drop);
    ExposedAfterPut(cfg, rs, op.key, Entry(op.key, ptr), DropOf(rs, op, drop), j, w, ready.shards);
  }

  lemma LandingStops(cfg: Config, rs: RowStore, op: Op, drop: Option<nat>)
    requires RowInv(cfg, rs) && FitsDrop(rs, op, drop)
    ensures var freed := Freed(rs.slots, DropOf(rs, op, drop));
            StopsAt(freed, Home(cfg.hash, op.key, |freed|), op.key, StopSlot(cfg.hash, freed, op.key))
    ensures DropOf(rs, op, drop).Some? ==> drop.value < |rs.slots|
  {
    NeverFull(cfg.hash, rs.slots);
    if Puts(Abs(rs), op) {
      FreedIsRight(cfg.hash, rs.slots, drop);
    }
    StopExists(cfg.hash, Freed(rs.slots, DropOf(rs, op, drop)), op.key);
  }

  /** If a removal comes to be pending for the call's own key, its shard is the one looked at. */
  lemma OwnKeyIsNotForeign(cfg: Config, rs: RowStore, op: Op, drop: Option<nat>, j: nat)
    requires RowInv(cfg, rs) && WillCheck(cfg, rs, op, drop, j)
    ensures var ptr := Lookup(Prepare(cfg, Abs(rs), op, VictimOf(rs.slots, drop)).store.cache, op.key);
            !ptr.IsEmpty() && (ptr.IsDeleted() ==> Home(cfg.hash, op.key, |rs.shards|) == j)
  {
    var st, victim := Abs(rs), VictimOf(rs.slots, drop);
    DropIsVictimIf(cfg, rs, op, Draw(drop, [], []));
    CheckedThen(cfg, st, op, victim);
    TypesThen(cfg, st, op, victim, op.key);
  }

  /** If one was pending for it before, so it is. */
  lemma OwnKeyWasNotForeign(cfg: Config, rs: RowStore, op: Op, drop: Option<nat>, j: nat)
    requires RowInv(cfg, rs) && WillCheck(cfg, rs, op, drop, j)
    ensures forall p :: 0 <= p < |rs.slots| && rs.slots[p].ptr.IsDeleted() && rs.slots[p].key == op.key ==>
              Home(cfg.hash, op.key, |rs.shards|) == j
  {
    DropIsVictimIf(cfg, rs, op, Draw(drop, [], []));
    CheckedThen(cfg, Abs(rs), op, VictimOf(rs.slots, drop));
    ContentsRepresents(rs.slots);
  }

  lemma ExposedAfterPut(cfg: Config, rs: RowStore, key: Key, e: Entry, drop: Option<nat>, j: nat, w: nat,
                        shards: seq<ShardState>)
    requires |rs.slots| > 0 && |shards| == |rs.shards| > 0 && e.key == key && !e.IsFree()
    requires e.ptr.IsDeleted() ==> Home(cfg.hash, key, |rs.shards|) == j
    requires drop.Some? ==> drop.value < |rs.slots|
    requires var freed := Freed(rs.slots, drop);
             StopsAt(freed, Home(cfg.hash, key, |freed|), key, StopSlot(cfg.hash, freed, key))
    requires forall p :: 0 <= p < |rs.slots| && rs.slots[p].ptr.IsDeleted() && rs.slots[p].key == key ==>
               Home(cfg.hash, key, |rs.shards|) == j
    ensures Exposed(cfg, RowStore(RowPut(cfg.hash, rs.slots, e, drop), shards), j, w)
            <==> w < |rs.slots| && drop != Some(w) && rs.slots[w].ptr.IsDeleted()
                 && Home(cfg.hash, rs.slots[w].key, |rs.shards|) != j
                 && Next(|rs.slots|, w) != StopSlot(cfg.hash, Freed(rs.slots, drop), key)
                 && (rs.slots[Next(|rs.slots|, w)].IsFree() || drop == Some(Next(|rs.slots|, w)))
  {
    var freed := Freed(rs.slots, drop);
    var landing, row := StopSlot(cfg.hash, freed, key), RowPut(cfg.hash, rs.slots, e, drop);
    if w < |row| {
      assert w != landing ==> row[w] == freed[w];
      var next := Next(|row|, w);
      assert next != landing ==> row[next] == freed[next];
    }
  }

  /** A call that cannot lose comes to its rebuild, if at all, under the safe condition. */
  lemma CannotLose(cfg: Config, rs: RowStore, op: Op, drop: Option<nat>, j: nat)
    requires RowInv(cfg, rs) && WillCheck(cfg, rs, op, drop, j) && !CanLose(cfg, rs, op, drop)
    ensures var ready := ReadyRow(cfg, rs, op, drop);
            && RowInv(cfg, ready) && j < |ready.shards|
            && (Rebuilds(Abs(ready), Some(j)) ==>
                  !Overloaded(ready.slots) || !HasUpdates(Abs(ready), j) || forall w :: !Exposed(cfg, ready, j, w))
  {
    ReadyRowThen(cfg, rs, op, drop, j);
    forall w
      ensures Exposed(cfg, ReadyRow(cfg, rs, op, drop), j, w)
              <==> ExposedThen(cfg, rs, op, DropOf(rs, op, drop), j, w)
    {
      ExposedIsThen(cfg, rs, op, drop, j, w);
    }
  }

  lemma SafeCall(cfg: Config, rs: RowStore, op: Op, d: Draw, next: RowStore)
    requires RowInv(cfg, rs) && RowStep(cfg, rs, op, d, RowRunning(next)) && !CanLose(cfg, rs, op, d.drop)
    ensures !Loses(cfg, Abs(rs), op, ChoiceOf(cfg, rs, op, d), Abs(next))
  {
    var prepared := Prepare(cfg, Abs(rs), op, VictimOf(rs.slots, d.drop));
    RowPrepares(cfg, rs, op, d);
    if prepared.Ready? && Rebuilds(prepared.store, prepared.check) {
      var j := prepared.check.value;
      CannotLose(cfg, rs, op, d.drop, j);
      SafeRebuild(cfg, ReadyRow(cfg, rs, op, d.drop), j, d, next);
    }
  }

  /** The other way round: a draw for which the call loses a removal. */
  lemma LosingCall(cfg: Config, rs: RowStore, op: Op, drop: Option<nat>, entries: seq<Entry>)
    returns (d: Draw, next: RowStore)
    requires RowInv(cfg, rs) && !cfg.asserts && FitsDrop(rs, op, drop) && CanLose(cfg, rs, op, drop)
    requires OrdersCheckedShard(cfg, rs, op, drop, entries)
    ensures d.drop == drop && d.entries == entries
    ensures RowStep(cfg, rs, op, d, RowRunning(next)) && Loses(cfg, Abs(rs), op, ChoiceOf(cfg, rs, op, d), Abs(next))
  {
    var j, w := ComesToLosing(cfg, rs, op, drop);
    var ready := ReadyRow(cfg, rs, op, drop);
    d, next := LosingRebuild(cfg, ready, j, w, drop, entries);
    RowPrepares(cfg, rs, op, d);
    assert RemovalLost(cfg, Abs(ready), j, Contents(next.slots));
  }

  lemma SomeOrder(cfg: Config, rs: RowStore, op: Op, drop: Option<nat>) returns (entries: seq<Entry>)
    requires RowInv(cfg, rs) && FitsDrop(rs, op, drop) && CanLose(cfg, rs, op, drop)
    ensures OrdersCheckedShard(cfg, rs, op, drop, entries)
  {
    var j, w := ComesToLosing(cfg, rs, op, drop);
    entries := ShardOrder(ReadyRow(cfg, rs, op, drop).shards[j]);
  }

  lemma ComesToLosing(cfg: Config, rs: RowStore, op: Op, drop: Option<nat>) returns (j: nat, w: nat)
    requires RowInv(cfg, rs) && FitsDrop(rs, op, drop) && CanLose(cfg, rs, op, drop)
    ensures WillCheck(cfg, rs, op, drop, j)
    ensures var ready := ReadyRow(cfg, rs, op, drop);
            && RowInv(cfg, ready) && j < |ready.shards| && Rebuilds(Abs(ready), Some(j))
            && Abs(ready) == Prepare(cfg, Abs(rs), op, VictimOf(rs.slots, drop)).store
            && Overloaded(ready.slots) && HasUpdates(Abs(ready), j) && Exposed(cfg, ready, j, w)
  {
    var victim := VictimOf(rs.slots, drop);
    j := Checked(cfg, Abs(rs), op, victim).value;
    RefusedIsOverflow(cfg, Abs(rs), op, victim);
    DropIsVictimIf(cfg, rs, op, Draw(drop, [], []));
    CheckedThen(cfg, Abs(rs), op, victim);
    ReadyRowThen(cfg, rs, op, drop, j);
    w :| ExposedThen(cfg, rs, op, DropOf(rs, op, drop), j, w);
    ExposedIsThen(cfg, rs, op, drop, j, w);
  }

  // ----- Runs of safe calls -----

  /** No slot that the put of the call to state `n` may free brings it to a losing rebuild. */
  ghost predicate SafeInto(t: RowTrace, n: nat)
    requires 0 < n <= |t.ops| && |t.stores| == |t.ops| + 1
  {
    var rs, op := t.stores[n - 1], t.ops[n - 1];
    |rs.shards| > 0 ==> forall drop :: FitsDrop(rs, op, drop) ==> !CanLose(t.cfg, rs, op, drop)
  }

  /** In any build a run whose every call is safe on the store it is made on loses nothing, and so
      answers as a plain map. */
  lemma SafeRunRefinesMap(t: RowTrace)
    requires IsRowRun(t) && forall n :: 0 < n <= |t.ops| ==> SafeInto(t, n)
    ensures IsRun(AbsTrace(t)) && LosesNothing(AbsTrace(t))
    ensures forall i :: 0 <= i < |t.ops| ==> t.results[i] == Answer(MapAfter(t.ops[..i]), t.ops[i])
  {
    ProgramRefinesMap(t);
    var run: Run := AbsTrace(t);
    forall n | 0 < n <= |run.ops|
      ensures !LosesInto(run, n)
    {
      SafeCallInto(t, run, n);
    }
  }

  lemma SafeCallInto(t: RowTrace, run: Run, n: nat)
    requires IsRowRun(t) && run == AbsTrace(t) && 0 < n <= |t.ops| && SafeInto(t, n)
    ensures !LosesInto(run, n)
  {
    RowRunKeepsInv(t, n - 1);
    assert RowCallInto(t, n);
    AbsTraceAt(t, n);
    SafeCall(t.cfg, t.stores[n - 1], t.ops[n - 1], t.draws[n - 1], t.stores[n]);
  }
}
