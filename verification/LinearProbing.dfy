/** Open addressing with linear probing over a circular row of slots: the invariant that
    makes a search right, and what the primitive updates of the two hash tables do to it. */
module LinearProbing {
  import opened KeyValueTypes

  /** Slot `j` lies on the cyclic walk that starts at `from` and stops before `to`. */
  predicate InArc(from: nat, j: nat, to: nat) {
    if from <= to then from <= j < to else from <= j || j < to
  }

  function Next(size: nat, i: nat): (next: nat)
    requires i < size
    ensures next < size
  {
    if i + 1 == size then 0 else i + 1
  }

  lemma NextIsModular(size: nat, i: nat)
    requires i < size
    ensures (i + 1) % size == Next(size, i)
  {
    if i + 1 == size {
      assert size % size == 0;
    } else {
      assert (i + 1) % size == i + 1;
    }
  }

  /** A slot lies on the walk if it takes fewer steps to it than to the end, round the row. */
  lemma InArcIsFewerSteps(size: nat, from: nat, j: nat, to: nat)
    requires from < size && j < size && to < size
    ensures InArc(from, j, to) <==> (size + j - from) % size < (size + to - from) % size
  {
    StepsAre(size, from, j);
    StepsAre(size, from, to);
  }

  lemma StepsAre(size: nat, from: nat, to: nat)
    requires from < size && to < size
    ensures (size + to - from) % size == if from <= to then to - from else size + to - from
  {
    if from <= to {
      RemainderIs(size + to - from, size, 1, to - from);
    } else {
      RemainderIs(size + to - from, size, 0, size + to - from);
    }
  }

  /** No key is held twice. */
  ghost predicate DistinctKeys(slots: seq<Entry>) {
    forall i, j :: 0 <= i < j < |slots| && !slots[i].IsFree() && !slots[j].IsFree() ==> slots[i].key != slots[j].key
  }

  /** Every slot between the home of a held key and the key's position is taken. */
  ghost predicate GapFree(hash: Hasher, slots: seq<Entry>)
    requires |slots| > 0
  {
    forall i, j {:trigger InArc(Home(hash, slots[i].key, |slots|), j, i)}
      | 0 <= i < |slots| && 0 <= j < |slots| && !slots[i].IsFree() && InArc(Home(hash, slots[i].key, |slots|), j, i)
      :: !slots[j].IsFree()
  }

  ghost predicate WellProbed(hash: Hasher, slots: seq<Entry>) {
    |slots| > 0 && DistinctKeys(slots) && GapFree(hash, slots)
  }

  ghost predicate Holds(slots: seq<Entry>, key: Key) {
    exists i :: 0 <= i < |slots| && !slots[i].IsFree() && slots[i].key == key
  }

  /** The map `m` has exactly the bindings held in the slots. */
  ghost predicate Represents(slots: seq<Entry>, m: map<Key, Ptr>) {
    && (forall i :: 0 <= i < |slots| && !slots[i].IsFree() ==> slots[i].key in m && m[slots[i].key] == slots[i].ptr)
    && (forall k :: k in m ==> Holds(slots, k))
  }

  /** The map a row of slots stands for. */
  ghost function Contents(slots: seq<Entry>): map<Key, Ptr> {
    if slots == [] then map[]
    else
      var init, last := slots[..|slots| - 1], slots[|slots| - 1];
      if last.IsFree() then Contents(init) else Contents(init)[last.key := last.ptr]
  }

  lemma {:induction false} ContentsRepresents(slots: seq<Entry>)
    requires DistinctKeys(slots)
    ensures Represents(slots, Contents(slots))
  {
    if slots != [] {
      ContentsRepresents(slots[..|slots| - 1]);
      RepresentsOneMore(slots, Contents(slots[..|slots| - 1]), Contents(slots));
    }
  }

  lemma RepresentsOneMore(slots: seq<Entry>, before: map<Key, Ptr>, after: map<Key, Ptr>)
    requires slots != [] && DistinctKeys(slots) && Represents(slots[..|slots| - 1], before)
    requires after == var last := slots[|slots| - 1]; if last.IsFree() then before else before[last.key := last.ptr]
    ensures Represents(slots, after)
  {
    var init, last := slots[..|slots| - 1], slots[|slots| - 1];
    forall k | k in after
      ensures Holds(slots, k)
    {
      if k in before {
        assert Holds(init, k);
        var p :| 0 <= p < |init| && !init[p].IsFree() && init[p].key == k;
        assert slots[p] == init[p];
      }
    }
    forall i | 0 <= i < |slots| && !slots[i].IsFree()
      ensures slots[i].key in after && after[slots[i].key] == slots[i].ptr
    {
      if i < |init| {
        assert init[i] == slots[i];
      }
    }
  }

  lemma ContentsIsTheOne(slots: seq<Entry>, m: map<Key, Ptr>)
    requires DistinctKeys(slots) && Represents(slots, m)
    ensures Contents(slots) == m
  {
    ContentsRepresents(slots);
    forall k
      ensures k in m <==> k in Contents(slots)
      ensures k in m ==> m[k] == Contents(slots)[k]
    {
    }
  }

  function Used(slots: seq<Entry>): (used: nat)
    ensures used <= |slots|
  {
    if slots == [] then 0
    else Used(slots[..|slots| - 1]) + if slots[|slots| - 1].IsFree() then 0 else 1
  }

  lemma {:induction false} UsedAfterUpdate(slots: seq<Entry>, i: nat, e: Entry)
    requires i < |slots|
    ensures Used(slots[i := e]) == Used(slots) - (if slots[i].IsFree() then 0 else 1) + (if e.IsFree() then 0 else 1)
  {
    var last := |slots| - 1;
    if i == last {
      assert slots[i := e][..last] == slots[..last];
    } else {
      assert slots[i := e][..last] == slots[..last][i := e];
      UsedAfterUpdate(slots[..last], i, e);
    }
  }

  lemma {:induction false} UsedIsSize(slots: seq<Entry>)
    requires DistinctKeys(slots)
    ensures |Contents(slots)| == Used(slots)
  {
    if slots != [] {
      var init, last := slots[..|slots| - 1], slots[|slots| - 1];
      UsedIsSize(init);
      if !last.IsFree() {
        LastIsNew(slots);
      }
    }
  }

  lemma {:induction false} AllFree(slots: seq<Entry>)
    requires forall i :: 0 <= i < |slots| ==> slots[i].IsFree()
    ensures Used(slots) == 0
  {
    if slots != [] {
      AllFree(slots[..|slots| - 1]);
    }
  }

  /** Fewer used slots than slots leave a free one. */
  lemma {:induction false} SomeFree(slots: seq<Entry>) returns (i: nat)
    requires Used(slots) < |slots|
    ensures i < |slots| && slots[i].IsFree()
  {
    var last := |slots| - 1;
    if slots[last].IsFree() {
      i := last;
    } else {
      i := SomeFree(slots[..last]);
    }
  }

  lemma {:induction false} FullHasNoneFree(slots: seq<Entry>)
    requires Used(slots) == |slots|
    ensures forall i :: 0 <= i < |slots| ==> !slots[i].IsFree()
  {
    if slots != [] {
      FullHasNoneFree(slots[..|slots| - 1]);
    }
  }

  lemma {:induction false} SomeUsed(slots: seq<Entry>) returns (i: nat)
    requires Used(slots) > 0
    ensures i < |slots| && !slots[i].IsFree()
  {
    var last := |slots| - 1;
    if !slots[last].IsFree() {
      i := last;
    } else {
      i := SomeUsed(slots[..last]);
    }
  }

  /** With two slots free there is a free one besides any given slot. */
  lemma SomeOtherFree(slots: seq<Entry>, home: nat) returns (i: nat)
    requires Used(slots) + 2 <= |slots| && home < |slots|
    ensures i < |slots| && i != home && slots[i].IsFree()
  {
    var taken := Entry(DEFAULT_KEY, NONEXISTENT_PTR);
    UsedAfterUpdate(slots, home, taken);
    i := SomeFree(slots[home := taken]);
  }

  /** The entries held, in the order of their slots. */
  function Entries(slots: seq<Entry>): seq<Entry> {
    if slots == [] then []
    else Entries(slots[..|slots| - 1]) + if slots[|slots| - 1].IsFree() then [] else [slots[|slots| - 1]]
  }

  /** A list of entries gives every binding of the map once. */
  ghost predicate Enumerates(entries: seq<Entry>, m: map<Key, Ptr>) {
    && DistinctKeys(entries)
    && (forall i :: 0 <= i < |entries| ==> !entries[i].IsFree())
    && Contents(entries) == m
  }

  lemma EnumeratesOneMore(entries: seq<Entry>, m: map<Key, Ptr>, e: Entry)
    requires Enumerates(entries, m) && !e.IsFree() && e.key !in m
    ensures Enumerates(entries + [e], m[e.key := e.ptr])
  {
    var more := entries + [e];
    assert more[..|entries|] == entries;
    ContentsRepresents(entries);
    forall i | 0 <= i < |entries|
      ensures more[i].key != e.key
    {
      assert more[i] == entries[i];
    }
  }

  lemma {:induction false} EntriesEnumerate(slots: seq<Entry>)
    requires DistinctKeys(slots)
    ensures Enumerates(Entries(slots), Contents(slots))
  {
    EntriesContents(slots);
    EntriesDistinct(slots);
  }

  lemma {:induction false} EntriesContents(slots: seq<Entry>)
    ensures Contents(Entries(slots)) == Contents(slots)
  {
    if slots != [] {
      var init, last := slots[..|slots| - 1], slots[|slots| - 1];
      EntriesContents(init);
      if last.IsFree() {
        assert Entries(slots) == Entries(init);
      } else {
        assert Entries(slots)[..|Entries(init)|] == Entries(init);
      }
    }
  }

  lemma {:induction false} EntriesDistinct(slots: seq<Entry>)
    requires DistinctKeys(slots)
    ensures DistinctKeys(Entries(slots))
    ensures forall i :: 0 <= i < |Entries(slots)| ==> !Entries(slots)[i].IsFree() && Entries(slots)[i] in slots
  {
    if slots != [] {
      var init, last := slots[..|slots| - 1], slots[|slots| - 1];
      EntriesDistinct(init);
      var earlier := Entries(init);
      forall i | 0 <= i < |earlier|
        ensures !last.IsFree() ==> earlier[i].key != last.key
      {
        var p :| 0 <= p < |init| && init[p] == earlier[i];
        assert slots[p] == earlier[i];
      }
    }
  }

  /** They come in the order of their slots: each after as many as there are taken slots before. */
  lemma {:induction false} EntriesInOrder(slots: seq<Entry>, i: nat)
    requires i < |slots| && !slots[i].IsFree()
    ensures |Entries(slots)| == Used(slots) && Used(slots[..i]) < Used(slots)
    ensures Entries(slots)[Used(slots[..i])] == slots[i]
  {
    var last := |slots| - 1;
    EntriesCount(slots);
    EntriesCount(slots[..last]);
    if i < last {
      EntriesInOrder(slots[..last], i);
      assert slots[..last][..i] == slots[..i];
    }
  }

  lemma LastIsNew(slots: seq<Entry>)
    requires slots != [] && DistinctKeys(slots) && !slots[|slots| - 1].IsFree()
    ensures slots[|slots| - 1].key !in Contents(slots[..|slots| - 1])
  {
    ContentsRepresents(slots[..|slots| - 1]);
    assert !Holds(slots[..|slots| - 1], slots[|slots| - 1].key);
  }

  lemma {:induction false} EntriesCount(slots: seq<Entry>)
    ensures |Entries(slots)| == Used(slots)
  {
    if slots != [] {
      EntriesCount(slots[..|slots| - 1]);
    }
  }

  /** Going through a list of entries, each one is new to the part already seen. */
  lemma NewToEarlier(entries: seq<Entry>, m: map<Key, Ptr>, i: nat)
    requires Enumerates(entries, m) && i < |entries|
    ensures |m| == |entries|
    ensures entries[i].key !in Contents(entries[..i]) && |Contents(entries[..i])| == i
    ensures Contents(entries[..i + 1]) == Contents(entries[..i])[entries[i].key := entries[i].ptr]
  {
    EnumeratesPrefix(entries, m, |entries|);
    EnumeratesPrefix(entries, m, i);
    var upTo := entries[..i + 1];
    assert upTo[..i] == entries[..i] && upTo[i] == entries[i];
    LastIsNew(upTo);
  }

  lemma EnumeratesItself(entries: seq<Entry>, m: map<Key, Ptr>, i: nat)
    requires Enumerates(entries, m) && i <= |entries|
    ensures Enumerates(entries[..i], Contents(entries[..i]))
  {
  }

  lemma EnumeratesPrefix(entries: seq<Entry>, m: map<Key, Ptr>, i: nat)
    requires Enumerates(entries, m) && i <= |entries|
    ensures DistinctKeys(entries[..i]) && |Contents(entries[..i])| == i
    ensures i == |entries| ==> |m| == i
  {
    AllUsed(entries[..i]);
    UsedIsSize(entries[..i]);
    assert entries[..|entries|] == entries;
  }

  lemma {:induction false} AllUsed(slots: seq<Entry>)
    requires forall i :: 0 <= i < |slots| ==> !slots[i].IsFree()
    ensures Used(slots) == |slots|
  {
    if slots != [] {
      AllUsed(slots[..|slots| - 1]);
    }
  }

  /** The cyclic search of both tables, strictly after `fromIndex`; `fromIndex` itself when
      nothing else matches. */
  method FindNextByPredicate(data: seq<Entry>, fromIndex: nat, matches: Entry -> bool) returns (found: nat)
    requires fromIndex < |data|
    ensures found < |data|
    ensures found != fromIndex ==> matches(data[found])
    ensures found != fromIndex ==>
              forall j {:trigger InArc(fromIndex, j, found)} ::
                0 <= j < |data| && j != fromIndex && InArc(fromIndex, j, found) ==> !matches(data[j])
    ensures found == fromIndex <==> forall j :: 0 <= j < |data| && j != fromIndex ==> !matches(data[j])
  {
    var i := if fromIndex != |data| - 1 then fromIndex + 1 else 0;
    while i != fromIndex
      invariant 0 <= i < |data|
      invariant forall j :: 0 <= j < |data| && j != fromIndex && (i == fromIndex || InArc(fromIndex, j, i)) ==>
                  !matches(data[j])
      decreases if i == fromIndex then 0 else if i > fromIndex then |data| - i + fromIndex else fromIndex - i
    {
      if matches(data[i]) {
        return i;
      }
      NextIsModular(|data|, i);
      i := (i + 1) % |data|;
    }
    return fromIndex;
  }

  /** Slot `i` is the first, walking from `home`, that is free or carries the key. */
  ghost predicate StopsAt(slots: seq<Entry>, home: nat, key: Key, i: nat) {
    && i < |slots|
    && (slots[i].IsFree() || slots[i].key == key)
    && forall j {:trigger InArc(home, j, i)} :: 0 <= j < |slots| && InArc(home, j, i) ==>
         !slots[j].IsFree() && slots[j].key != key
  }

  /** The number of steps of the walk from one slot to another. */
  function Distance(size: nat, from: nat, to: nat): nat
    requires from < size && to < size
  {
    if from <= to then to - from else to + size - from
  }

  function StopFrom(slots: seq<Entry>, key: Key, i: nat, steps: nat): (p: nat)
    requires i < |slots|
    ensures p < |slots|
    decreases steps
  {
    if steps == 0 || slots[i].IsFree() || slots[i].key == key then i
    else StopFrom(slots, key, Next(|slots|, i), steps - 1)
  }

  /** Where the search for a key stops. */
  function StopSlot(hash: Hasher, slots: seq<Entry>, key: Key): (p: nat)
    requires |slots| > 0
    ensures p < |slots|
  {
    StopFrom(slots, key, Home(hash, key, |slots|), |slots|)
  }

  lemma {:induction false} StopFromIs(slots: seq<Entry>, key: Key, i: nat, steps: nat, p: nat)
    requires i < |slots| && StopsAt(slots, i, key, p) && Distance(|slots|, i, p) <= steps
    ensures StopFrom(slots, key, i, steps) == p
    decreases steps
  {
    if i != p {
      assert InArc(i, i, p);
      assert forall j | 0 <= j < |slots| && InArc(Next(|slots|, i), j, p) :: InArc(i, j, p);
      StopFromIs(slots, key, Next(|slots|, i), steps - 1, p);
    }
  }

  /** The slot at which a search stops is the only one. */
  lemma StopSlotIs(hash: Hasher, slots: seq<Entry>, key: Key, p: nat)
    requires |slots| > 0 && StopsAt(slots, Home(hash, key, |slots|), key, p)
    ensures StopSlot(hash, slots, key) == p
  {
    StopFromIs(slots, key, Home(hash, key, |slots|), |slots|, p);
  }

  /** With a free slot in the row every search stops. */
  lemma StopExists(hash: Hasher, slots: seq<Entry>, key: Key)
    requires |slots| > 0 && Used(slots) < |slots|
    ensures StopsAt(slots, Home(hash, key, |slots|), key, StopSlot(hash, slots, key))
  {
    var home := Home(hash, key, |slots|);
    var free := SomeFree(slots);
    var p := WalkStops(slots, home, key, home, free);
    StopSlotIs(hash, slots, key, p);
  }

  lemma {:induction false} WalkStops(slots: seq<Entry>, home: nat, key: Key, i: nat, free: nat) returns (p: nat)
    requires home < |slots| && i < |slots| && free < |slots| && slots[free].IsFree()
    requires i == free || !InArc(home, free, i)
    requires forall j {:trigger InArc(home, j, i)} :: 0 <= j < |slots| && InArc(home, j, i) ==>
               !slots[j].IsFree() && slots[j].key != key
    ensures StopsAt(slots, home, key, p)
    decreases Distance(|slots|, i, free)
  {
    if slots[i].IsFree() || slots[i].key == key {
      p := i;
    } else {
      assert forall j | 0 <= j < |slots| && InArc(home, j, Next(|slots|, i)) :: j == i || InArc(home, j, i);
      p := WalkStops(slots, home, key, Next(|slots|, i), free);
    }
  }

  /** The search for a held key stops at its slot. */
  lemma HeldIsFound(hash: Hasher, slots: seq<Entry>, key: Key, p: nat)
    requires WellProbed(hash, slots) && p < |slots| && !slots[p].IsFree() && slots[p].key == key
    ensures StopSlot(hash, slots, key) == p
  {
    var home := Home(hash, key, |slots|);
    forall j {:trigger InArc(home, j, p)} | 0 <= j < |slots| && InArc(home, j, p)
      ensures !slots[j].IsFree() && slots[j].key != key
    {
      assert InArc(Home(hash, slots[p].key, |slots|), j, p);
    }
    StopSlotIs(hash, slots, key, p);
  }

  /** The row after an entry was stored where the search for its key stops. */
  function WithEntry(hash: Hasher, slots: seq<Entry>, e: Entry): (after: seq<Entry>)
    requires |slots| > 0
    ensures |after| == |slots|
  {
    slots[StopSlot(hash, slots, e.key) := e]
  }

  /** A search that stops at a free slot or at the key decides membership. */
  lemma StopDecides(hash: Hasher, slots: seq<Entry>, key: Key, i: nat)
    requires WellProbed(hash, slots)
    requires StopsAt(slots, Home(hash, key, |slots|), key, i)
    ensures key in Contents(slots) <==> !slots[i].IsFree()
    ensures key in Contents(slots) ==> slots[i].key == key && Contents(slots)[key] == slots[i].ptr
  {
    ContentsRepresents(slots);
    if key in Contents(slots) {
      assert Holds(slots, key);
      var p :| 0 <= p < |slots| && !slots[p].IsFree() && slots[p].key == key;
      WalksMeet(slots, Home(hash, key, |slots|), i, p);
    }
  }

  /** A walk that stops at `i` and a gap-free path to `p` cannot miss each other. */
  lemma WalksMeet(slots: seq<Entry>, home: nat, i: nat, p: nat)
    requires home < |slots| && i < |slots| && p < |slots|
    requires !InArc(home, p, i)
    ensures i == p || InArc(home, i, p)
  {
  }

  /** Slot `i` is the first, walking from `home`, that carries the key, free or not. */
  ghost predicate MatchesAt(slots: seq<Entry>, home: nat, key: Key, i: nat) {
    && i < |slots|
    && slots[i].key == key
    && forall j {:trigger InArc(home, j, i)} :: 0 <= j < |slots| && InArc(home, j, i) ==> slots[j].key != key
  }

  /** A search that looks at keys only, and so may run past free slots or stop at one that
      still carries the key, decides membership as well. */
  lemma MatchDecides(hash: Hasher, slots: seq<Entry>, key: Key, i: nat)
    requires WellProbed(hash, slots)
    requires MatchesAt(slots, Home(hash, key, |slots|), key, i)
    ensures key in Contents(slots) <==> !slots[i].IsFree()
    ensures key in Contents(slots) ==> Contents(slots)[key] == slots[i].ptr
  {
    ContentsRepresents(slots);
    if key in Contents(slots) {
      assert Holds(slots, key);
      var p :| 0 <= p < |slots| && !slots[p].IsFree() && slots[p].key == key;
      WalksMeet(slots, Home(hash, key, |slots|), i, p);
    }
  }

  /** Where a store of the key goes: the home slot if it is free or carries the key, and
      otherwise the next such slot. One free slot is enough for the search to succeed. */
  method FindSlotFor(hash: Hasher, data: seq<Entry>, key: Key) returns (slot: nat)
    requires WellProbed(hash, data) && Used(data) < |data|
    ensures StopsAt(data, Home(hash, key, |data|), key, slot)
  {
    slot := Home(hash, key, |data|);
    if !(data[slot].key == key || data[slot].IsFree()) {
      ghost var free := SomeFree(data);
      var newIndex := FindNextByPredicate(data, slot, (e: Entry) => e.key == key || e.IsFree());
      assert newIndex != slot;
      slot := newIndex;
    }
  }

  /** Storing an entry where the search for its key stops changes the map at that key only. */
  lemma StoreWhereStopped(hash: Hasher, slots: seq<Entry>, e: Entry, i: nat)
    requires WellProbed(hash, slots) && !e.IsFree()
    requires StopsAt(slots, Home(hash, e.key, |slots|), e.key, i)
    ensures WellProbed(hash, slots[i := e])
    ensures Contents(slots[i := e]) == Contents(slots)[e.key := e.ptr]
    ensures Used(slots[i := e]) == if e.key in Contents(slots) then Used(slots) else Used(slots) + 1
  {
    StopDecides(hash, slots, e.key, i);
    UsedAfterUpdate(slots, i, e);
    StoredContents(slots, e, i);
  }

  lemma StoredContents(slots: seq<Entry>, e: Entry, i: nat)
    requires i < |slots| && !e.IsFree() && DistinctKeys(slots)
    requires !slots[i].IsFree() ==> slots[i].key == e.key
    requires e.key in Contents(slots) ==> !slots[i].IsFree()
    ensures DistinctKeys(slots[i := e])
    ensures Contents(slots[i := e]) == Contents(slots)[e.key := e.ptr]
  {
    ContentsRepresents(slots);
    var after, m := slots[i := e], Contents(slots);
    assert forall p :: 0 <= p < |slots| && p != i && !slots[p].IsFree() ==> slots[p].key in m && slots[p].key != e.key;
    forall k | k in m[e.key := e.ptr]
      ensures Holds(after, k)
    {
      if k == e.key {
        assert after[i].key == k;
      } else {
        assert Holds(slots, k);
        var p :| 0 <= p < |slots| && !slots[p].IsFree() && slots[p].key == k;
        assert after[p] == slots[p];
      }
    }
    ContentsIsTheOne(after, m[e.key := e.ptr]);
  }

  /** Freeing a slot whose cyclic successor is free needs no tombstone. */
  lemma FreeLastOfCluster(hash: Hasher, slots: seq<Entry>, v: nat)
    requires WellProbed(hash, slots)
    requires v < |slots| && !slots[v].IsFree() && slots[Next(|slots|, v)].IsFree()
    ensures WellProbed(hash, slots[v := FREE_ENTRY])
    ensures Contents(slots[v := FREE_ENTRY]) == Contents(slots) - {slots[v].key}
    ensures Used(slots[v := FREE_ENTRY]) == Used(slots) - 1
  {
    UsedAfterUpdate(slots, v, FREE_ENTRY);
    FreedContents(slots, v);
    FreedGapFree(hash, slots, v);
  }

  lemma FreedGapFree(hash: Hasher, slots: seq<Entry>, v: nat)
    requires WellProbed(hash, slots)
    requires v < |slots| && !slots[v].IsFree() && slots[Next(|slots|, v)].IsFree()
    ensures GapFree(hash, slots[v := FREE_ENTRY])
  {
    var next := Next(|slots|, v);
    forall i | 0 <= i < |slots| && i != v && !slots[i].IsFree()
      ensures !InArc(Home(hash, slots[i].key, |slots|), v, i)
    {
      assert i != next && !InArc(Home(hash, slots[i].key, |slots|), next, i);
    }
  }

  lemma FreedContents(slots: seq<Entry>, v: nat)
    requires DistinctKeys(slots) && v < |slots| && !slots[v].IsFree()
    ensures DistinctKeys(slots[v := FREE_ENTRY])
    ensures Contents(slots[v := FREE_ENTRY]) == Contents(slots) - {slots[v].key}
  {
    ContentsRepresents(slots);
    var after, m := slots[v := FREE_ENTRY], Contents(slots) - {slots[v].key};
    forall k | k in m
      ensures Holds(after, k)
    {
      assert Holds(slots, k);
      var p :| 0 <= p < |slots| && !slots[p].IsFree() && slots[p].key == k;
      assert after[p] == slots[p];
    }
    ContentsIsTheOne(after, m);
  }

  /** The necessity of the rule: freeing a slot inside a cluster breaks the row. */
  lemma FreeInsideClusterBreaks(hash: Hasher, slots: seq<Entry>, v: nat, i: nat)
    requires WellProbed(hash, slots)
    requires v < |slots| && i < |slots| && !slots[i].IsFree() && v != i
    requires InArc(Home(hash, slots[i].key, |slots|), v, i)
    ensures !WellProbed(hash, slots[v := FREE_ENTRY])
  {
    var after := slots[v := FREE_ENTRY];
    assert !after[i].IsFree() && after[v].IsFree();
  }
}
