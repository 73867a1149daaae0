/** Every call can be made: there are draws that fit it, and an outcome. */
module StoreEnabled {
  import opened KeyValueTypes
  import opened LinearProbing
  import opened CacheRow
  import opened RebuildModel
  import opened StoreModel
  import opened StoreRebuild
  import opened StoreRuns
  import opened StoreRow
  import opened StoreLosses

  /** Below the load a whole write-back displaces nothing. */
  lemma LightWriteBack(hash: Hasher, slots: seq<Entry>, updates: seq<Entry>, drops: seq<Option<nat>>)
    requires RowOk(hash, slots) && |slots| >= 4 && !Overloaded(slots)
    requires Enumerates(updates, Contents(updates)) && Contents(updates).Keys <= Contents(slots).Keys
    requires |updates| == |drops| && ValidDrops(hash, slots, updates, drops)
    ensures NoneDropped(drops)
  {
    UsedIsSize(slots);
    RowWrittenIs(hash, slots, updates, drops);
    var victims := VictimsOf(hash, slots, updates, drops);
    WriteBackDisplacesNothing(|slots|, Contents(slots), updates, Contents(updates), victims);
    forall j | 0 <= j < |drops|
      ensures drops[j].None?
    {
      VictimsAreDrops(hash, slots, updates, drops, j);
    }
  }

  /** Draws that free the slots of a write-back, up to its end. */
  lemma SomeDrops(cfg: Config, slots: seq<Entry>, updates: seq<Entry>) returns (drops: seq<Option<nat>>)
    requires RowOk(cfg.hash, slots) && |slots| >= 4 && AllTaken(updates)
    ensures |drops| == |updates| && ValidDrops(cfg.hash, slots, updates, drops)
    ensures drops != [] ==> ValidDrop(slots, drops[0])
  {
    if updates == [] {
      drops := [];
    } else {
      NeverFull(cfg.hash, slots);
      var first := SomeDrop(slots);
      drops := DropsFrom(cfg.hash, slots, updates, first);
    }
  }

  lemma OneDrop(hash: Hasher, slots: seq<Entry>, updates: seq<Entry>, drop: Option<nat>)
    requires |slots| > 0 && updates != [] && ValidDrop(slots, drop)
    ensures ValidDrops(hash, slots, updates[..1], [drop])
  {
    assert updates[..1][..0] == [] && [drop][..0] == [];
  }

  /** A rebuild can be made in whatever order the entries come. */
  lemma RebuildIsEnabled(cfg: Config, rs: RowStore, i: nat, drop: Option<nat>, entries: seq<Entry>)
    returns (d: Draw, out: RowOutcome)
    requires RowInv(cfg, rs) && i < |rs.shards| && Enumerates(entries, rs.shards[i].index)
    ensures RowRebuild(cfg, rs, i, d, out) && d.drop == drop && d.entries == entries
  {
    UpdatesAreCached(cfg, Abs(rs), i, entries);
    if cfg.asserts && KnownGone(Abs(rs), i) {
      d, out := Draw(drop, entries, []), RowStopped(IndexAssertion);
    } else {
      var drops := SomeDrops(cfg, rs.slots, Compacted(Abs(rs), i, entries).updates);
      if cfg.asserts && drops != [] && drops[0].Some? {
        d, out := Draw(drop, entries, [drops[0]]), RowStopped(WriteBackAssertion);
        OneDrop(cfg.hash, rs.slots, Compacted(Abs(rs), i, entries).updates, drops[0]);
      } else {
        d := Draw(drop, entries, drops);
        out := WholeRebuild(cfg, rs, i, d);
      }
    }
  }

  /** A rebuild that runs through its write-back. */
  lemma WholeRebuild(cfg: Config, rs: RowStore, i: nat, d: Draw) returns (out: RowOutcome)
    requires RowInv(cfg, rs) && i < |rs.shards| && Enumerates(d.entries, rs.shards[i].index)
    requires Readable(d.entries, |rs.shards[i].values|) && !(cfg.asserts && KnownGone(Abs(rs), i))
    requires var updates := Compacted(Abs(rs), i, d.entries).updates;
             |d.drops| == |updates| && ValidDrops(cfg.hash, rs.slots, updates, d.drops)
    requires cfg.asserts && d.drops != [] ==> !Overloaded(rs.slots)
    ensures RowRebuild(cfg, rs, i, d, out)
  {
    var r := Compacted(Abs(rs), i, d.entries);
    out := RowRunning(RowStore(RowWritten(cfg.hash, rs.slots, r.updates, d.drops), rs.shards[i := RebuiltShard(r)]));
    assert r.updates[..|d.drops|] == r.updates;
    if cfg.asserts && d.drops != [] {
      UpdatesAreCached(cfg, Abs(rs), i, d.entries);
      LightWriteBack(cfg.hash, rs.slots, r.updates, d.drops);
    }
  }

  /** Every call can be made on every store that keeps the invariant, whichever of the slots it
      may free is drawn. */
  lemma StepIsEnabled(cfg: Config, rs: RowStore, op: Op, drop: Option<nat>) returns (d: Draw, out: RowOutcome)
    requires RowInv(cfg, rs) && (Puts(Abs(rs), op) ==> ValidDrop(rs.slots, drop))
    ensures RowStep(cfg, rs, op, d, out) && d.drop == drop
  {
    d := Draw(drop, [], []);
    RowPrepares(cfg, rs, op, d);
    var prepared := Prepare(cfg, Abs(rs), op, VictimOf(rs.slots, drop));
    if prepared.Overflow? {
      out := RowStopped(ShardOverflow);
    } else {
      var ready := RowReady(cfg, rs, op, DropOf(rs, op, drop), prepared.store);
      if Rebuilds(Abs(ready), prepared.check) {
        var entries := ShardOrder(ready.shards[prepared.check.value]);
        d, out := RebuildIsEnabled(cfg, ready, prepared.check.value, drop, entries);
      } else {
        out := RowRunning(ready);
      }
    }
  }
}
