/** The cache as a row of slots: which slots a put can free, and where it stores its entry
    (src/CacheMap.cpp, lines 28 to 84). */
module CacheRow {
  import opened KeyValueTypes
  import opened LinearProbing

  ghost predicate LoadKept(used: nat, size: nat) {
    3 * used <= 2 * size + 3
  }

  /** The row can be searched, and a put has never gone beyond the load. */
  ghost predicate RowOk(hash: Hasher, slots: seq<Entry>) {
    WellProbed(hash, slots) && LoadKept(Used(slots), |slots|)
  }

  /** The next put has to make room first. */
  predicate Overloaded(slots: seq<Entry>) {
    3 * Used(slots) > 2 * |slots|
  }

  /** The slot is the last one of a cluster: taken, with a free one after it. */
  predicate Droppable(slots: seq<Entry>, v: nat) {
    v < |slots| && !slots[v].IsFree() && slots[Next(|slots|, v)].IsFree()
  }

  /** A put frees this slot first, or none. */
  predicate ValidDrop(slots: seq<Entry>, drop: Option<nat>) {
    (drop.Some? <==> Overloaded(slots)) && (drop.Some? ==> Droppable(slots, drop.value))
  }

  /** The draw of a random index leads to the slot: the last one of the cluster around the
      index, or of the cluster before it. */
  ghost predicate LeadsTo(slots: seq<Entry>, draw: nat, v: nat)
    requires draw < |slots|
  {
    && Droppable(slots, v)
    && if slots[draw].IsFree() then AllAre(slots, Next(|slots|, v), draw, true) else AllAre(slots, draw, v, false)
  }

  /** On the walk from one slot to another all slots are free, or all are taken. */
  ghost predicate AllAre(slots: seq<Entry>, from: nat, to: nat, free: bool) {
    forall j {:trigger InArc(from, j, to)} :: 0 <= j < |slots| && InArc(from, j, to) ==> slots[j].IsFree() == free
  }

  /** Every slot that can be freed is the one some index leads to. */
  lemma DroppableIsDrawn(slots: seq<Entry>, v: nat)
    requires v < |slots|
    ensures Droppable(slots, v) <==> exists draw :: 0 <= draw < |slots| && LeadsTo(slots, draw, v)
  {
    if Droppable(slots, v) {
      assert LeadsTo(slots, v, v);
    }
  }

  /** No index leads to two slots. */
  lemma DrawDecides(slots: seq<Entry>, draw: nat, v: nat, w: nat)
    requires draw < |slots| && LeadsTo(slots, draw, v) && LeadsTo(slots, draw, w)
    ensures v == w
  {
    if slots[draw].IsFree() {
      assert InArc(Next(|slots|, v), w, draw) || InArc(Next(|slots|, w), v, draw) || v == w;
    } else {
      assert InArc(draw, Next(|slots|, v), w) || InArc(draw, Next(|slots|, w), v) || v == w;
    }
  }

  /** The forward search from a taken slot: the slot before the free one it finds. */
  lemma ForwardLeads(slots: seq<Entry>, draw: nat, free: nat, v: nat)
    requires draw < |slots| && free < |slots| && v < |slots| && !slots[draw].IsFree() && slots[free].IsFree()
    requires forall j {:trigger InArc(draw, j, free)} ::
               0 <= j < |slots| && j != draw && InArc(draw, j, free) ==> !slots[j].IsFree()
    requires Next(|slots|, v) == free
    ensures LeadsTo(slots, draw, v)
  {
    assert InArc(draw, v, free);
    forall j {:trigger InArc(draw, j, v)} | 0 <= j < |slots| && InArc(draw, j, v)
      ensures !slots[j].IsFree()
    {
      assert InArc(draw, j, free);
    }
  }

  /** One more step of the backward loop. */
  lemma FreeRunGrows(slots: seq<Entry>, i: nat, draw: nat)
    requires i < |slots| && draw < |slots| && i != draw && slots[i].IsFree()
    requires AllAre(slots, Next(|slots|, i), draw, true)
    ensures AllAre(slots, i, draw, true)
  {
    forall j {:trigger InArc(i, j, draw)} | 0 <= j < |slots| && InArc(i, j, draw)
      ensures slots[j].IsFree()
    {
      assert j == i || InArc(Next(|slots|, i), j, draw);
    }
  }

  function Freed(slots: seq<Entry>, drop: Option<nat>): (freed: seq<Entry>)
    ensures |freed| == |slots|
  {
    if drop.Some? && drop.value < |slots| then slots[drop.value := FREE_ENTRY] else slots
  }

  /** The row after a put. */
  function RowPut(hash: Hasher, slots: seq<Entry>, e: Entry, drop: Option<nat>): (after: seq<Entry>)
    requires |slots| > 0
    ensures |after| == |slots|
  {
    WithEntry(hash, Freed(slots, drop), e)
  }

  /** From any taken slot the walk comes to one that can be freed. */
  lemma {:induction false} LastOfCluster(slots: seq<Entry>, i: nat, free: nat) returns (v: nat)
    requires i < |slots| && !slots[i].IsFree() && free < |slots| && slots[free].IsFree()
    ensures Droppable(slots, v)
    decreases Distance(|slots|, i, free)
  {
    if slots[Next(|slots|, i)].IsFree() {
      v := i;
    } else {
      v := LastOfCluster(slots, Next(|slots|, i), free);
    }
  }

  /** Where room has to be made, it can be. */
  lemma SomeDrop(slots: seq<Entry>) returns (drop: Option<nat>)
    requires Used(slots) < |slots|
    ensures ValidDrop(slots, drop)
  {
    if Overloaded(slots) {
      var used := SomeUsed(slots);
      var free := SomeFree(slots);
      var v := LastOfCluster(slots, used, free);
      drop := Some(v);
    } else {
      drop := None;
    }
  }

  /** A row of four slots or more is never full. */
  lemma NeverFull(hash: Hasher, slots: seq<Entry>)
    requires RowOk(hash, slots) && |slots| >= 4
    ensures Used(slots) < |slots|
  {
  }

  /** A put keeps the row searchable and within its load, and changes the map as it should. */
  lemma RowPutIsRight(hash: Hasher, slots: seq<Entry>, e: Entry, drop: Option<nat>)
    requires RowOk(hash, slots) && Used(slots) < |slots| && ValidDrop(slots, drop) && !e.IsFree()
    ensures RowOk(hash, RowPut(hash, slots, e, drop))
    ensures Contents(RowPut(hash, slots, e, drop))
            == (if drop.Some? then Contents(slots) - {slots[drop.value].key} else Contents(slots))[e.key := e.ptr]
  {
    var freed := Freed(slots, drop);
    FreedIsRight(hash, slots, drop);
    StopExists(hash, freed, e.key);
    StoreWhereStopped(hash, freed, e, StopSlot(hash, freed, e.key));
  }

  lemma FreedIsRight(hash: Hasher, slots: seq<Entry>, drop: Option<nat>)
    requires RowOk(hash, slots) && Used(slots) < |slots| && ValidDrop(slots, drop)
    ensures var freed := Freed(slots, drop);
            && WellProbed(hash, freed) && LoadKept(Used(freed) + 1, |freed|) && Used(freed) < |freed|
            && Used(freed) == (if drop.Some? then Used(slots) - 1 else Used(slots))
            && Contents(freed) == if drop.Some? then Contents(slots) - {slots[drop.value].key} else Contents(slots)
  {
    if drop.Some? {
      FreeLastOfCluster(hash, slots, drop.value);
    }
  }

  // ----- Puts of keys that are held -----

  lemma UpdatedTwice(slots: seq<Entry>, p: nat, first: Entry, e: Entry)
    requires p < |slots|
    ensures slots[p := first][p := e] == slots[p := e]
  {
  }

  /** A put of a held key that frees no slot, or the key's own, overwrites the key in place. */
  lemma PutInPlace(hash: Hasher, slots: seq<Entry>, e: Entry, drop: Option<nat>, p: nat)
    requires WellProbed(hash, slots) && p < |slots| && !slots[p].IsFree() && slots[p].key == e.key
    requires drop.Some? ==> drop.value == p
    ensures RowPut(hash, slots, e, drop) == slots[p := e]
  {
    if drop.None? {
      HeldIsFound(hash, slots, e.key, p);
    } else {
      FreedIsFound(hash, slots, e.key, p);
      UpdatedTwice(slots, p, FREE_ENTRY, e);
    }
  }

  /** Once a key's slot has been freed the search for the key stops there again. */
  lemma FreedIsFound(hash: Hasher, slots: seq<Entry>, key: Key, p: nat)
    requires WellProbed(hash, slots) && p < |slots| && !slots[p].IsFree() && slots[p].key == key
    ensures StopSlot(hash, slots[p := FREE_ENTRY], key) == p
  {
    var freed, home := slots[p := FREE_ENTRY], Home(hash, key, |slots|);
    forall j {:trigger InArc(home, j, p)} | 0 <= j < |slots| && InArc(home, j, p)
      ensures !freed[j].IsFree() && freed[j].key != key
    {
      assert InArc(Home(hash, slots[p].key, |slots|), j, p);
    }
    StopSlotIs(hash, freed, key, p);
  }

  /** The slot a held key lies in. */
  lemma SlotOf(slots: seq<Entry>, key: Key) returns (p: nat)
    requires DistinctKeys(slots) && key in Contents(slots)
    ensures p < |slots| && !slots[p].IsFree() && slots[p].key == key && slots[p].ptr == Contents(slots)[key]
  {
    ContentsRepresents(slots);
    assert Holds(slots, key);
    p :| 0 <= p < |slots| && !slots[p].IsFree() && slots[p].key == key;
  }
}
