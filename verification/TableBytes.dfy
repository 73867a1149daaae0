/** The byte form of a hash table: seventeen bytes a slot, then the counter of used slots as
    an eight-byte little-endian number (src/StorageHashTable.cpp). */
module TableBytes {
  import opened KeyValueTypes

  const ENTRY_SIZE: nat := 17
  const COUNTER_SIZE: nat := 8
  const SIZE_LIMIT: nat := 0x1_0000_0000_0000_0000  // sizes are of 64 bits

  function EntryBytes(e: Entry): (bytes: seq<Byte>)
    ensures |bytes| == ENTRY_SIZE
  {
    e.key.bytes + [e.ptr.raw]
  }

  function SlotsBytes(slots: seq<Entry>): (bytes: seq<Byte>)
    ensures |bytes| == ENTRY_SIZE * |slots|
  {
    if slots == [] then [] else SlotsBytes(slots[..|slots| - 1]) + EntryBytes(slots[|slots| - 1])
  }

  lemma SlotsBytesOneMore(slots: seq<Entry>, i: nat)
    requires i < |slots|
    ensures SlotsBytes(slots[..i + 1]) == SlotsBytes(slots[..i]) + EntryBytes(slots[i])
  {
    assert slots[..i + 1][..i] == slots[..i];
  }

  /** The `width` low bytes of a number, the lowest first. */
  function NumberBytes(n: nat, width: nat): (bytes: seq<Byte>)
    ensures |bytes| == width
  {
    if width == 0 then [] else [n % 256] + NumberBytes(n / 256, width - 1)
  }

  function Serialized(slots: seq<Entry>, used: nat): seq<Byte> {
    SlotsBytes(slots) + NumberBytes(used, COUNTER_SIZE)
  }

  function EntryAt(bytes: seq<Byte>, i: nat): Entry
    requires ENTRY_SIZE * (i + 1) <= |bytes|
  {
    Entry(Key(bytes[ENTRY_SIZE * i..ENTRY_SIZE * i + KEY_SIZE]), Ptr(bytes[ENTRY_SIZE * i + KEY_SIZE]))
  }

  predicate WellFormed(bytes: seq<Byte>) {
    |bytes| >= COUNTER_SIZE && (|bytes| - COUNTER_SIZE) % ENTRY_SIZE == 0
  }

  function SlotsOf(bytes: seq<Byte>): seq<Entry>
    requires WellFormed(bytes)
  {
    seq((|bytes| - COUNTER_SIZE) / ENTRY_SIZE,
        i requires 0 <= i < (|bytes| - COUNTER_SIZE) / ENTRY_SIZE => EntryAt(bytes, i))
  }

  function NumberOf(bytes: seq<Byte>): nat {
    if bytes == [] then 0 else bytes[0] + 256 * NumberOf(bytes[1..])
  }

  function UsedOf(bytes: seq<Byte>): nat
    requires WellFormed(bytes)
  {
    NumberOf(bytes[|bytes| - COUNTER_SIZE..])
  }

  function Pow256(width: nat): (p: nat)
    ensures p > 0
  {
    if width == 0 then 1 else 256 * Pow256(width - 1)
  }

  lemma {:induction false} PowGrows(width: nat)
    requires width > 0
    ensures Pow256(width) >= 256
  {
    if width > 1 {
      PowGrows(width - 1);
    }
  }

  lemma {:induction false} NumberReadsBack(n: nat, width: nat)
    requires n < Pow256(width)
    ensures NumberOf(NumberBytes(n, width)) == n
  {
    if width > 0 {
      NumberReadsBack(n / 256, width - 1);
      assert NumberBytes(n, width)[1..] == NumberBytes(n / 256, width - 1);
    }
  }

  lemma {:induction false} NumberWritesBack(bytes: seq<Byte>)
    ensures NumberOf(bytes) < Pow256(|bytes|)
    ensures NumberBytes(NumberOf(bytes), |bytes|) == bytes
  {
    if bytes != [] {
      NumberWritesBack(bytes[1..]);
      LowByte(NumberOf(bytes), bytes[0], NumberOf(bytes[1..]));
      assert bytes == [bytes[0]] + bytes[1..];
    }
  }

  lemma LowByte(n: nat, low: Byte, rest: nat)
    requires n == low + 256 * rest
    ensures n % 256 == low && n / 256 == rest
  {
  }

  lemma {:induction false} SlotsReadBack(slots: seq<Entry>, tail: seq<Byte>, i: nat)
    requires i < |slots|
    ensures EntryAt(SlotsBytes(slots) + tail, i) == slots[i]
  {
    var last := |slots| - 1;
    var bytes := SlotsBytes(slots[..last]);
    assert SlotsBytes(slots) + tail == bytes + (EntryBytes(slots[last]) + tail);
    if i < last {
      SlotsReadBack(slots[..last], EntryBytes(slots[last]) + tail, i);
    } else {
      assert (bytes + (EntryBytes(slots[last]) + tail))[ENTRY_SIZE * i..] == EntryBytes(slots[last]) + tail;
      assert (EntryBytes(slots[last]) + tail)[..KEY_SIZE] == slots[last].key.bytes;
      assert EntryAt(SlotsBytes(slots) + tail, i).key.bytes == slots[last].key.bytes;
    }
  }

  /** Reading what was written gives the slots and the counter back. */
  lemma TableReadsBack(slots: seq<Entry>, used: nat)
    requires used < Pow256(COUNTER_SIZE)
    ensures var bytes := Serialized(slots, used);
            WellFormed(bytes) && SlotsOf(bytes) == slots && UsedOf(bytes) == used
  {
    var bytes := Serialized(slots, used);
    assert |bytes| - COUNTER_SIZE == ENTRY_SIZE * |slots|;
    forall i | 0 <= i < |slots|
      ensures EntryAt(bytes, i) == slots[i]
    {
      SlotsReadBack(slots, NumberBytes(used, COUNTER_SIZE), i);
    }
    NumberReadsBack(used, COUNTER_SIZE);
    assert bytes[|bytes| - COUNTER_SIZE..] == NumberBytes(used, COUNTER_SIZE);
  }

  lemma {:induction false} SlotsWriteBack(bytes: seq<Byte>, n: nat)
    requires ENTRY_SIZE * n <= |bytes|
    ensures SlotsBytes(seq(n, i requires 0 <= i < n => EntryAt(bytes, i))) == bytes[..ENTRY_SIZE * n]
  {
    if n > 0 {
      var slots := seq(n, i requires 0 <= i < n => EntryAt(bytes, i));
      SlotsWriteBack(bytes, n - 1);
      assert slots[..n - 1] == seq(n - 1, i requires 0 <= i < n - 1 => EntryAt(bytes, i));
      assert EntryBytes(slots[n - 1]) == bytes[ENTRY_SIZE * (n - 1)..ENTRY_SIZE * n];
    }
  }

  /** Writing what was read gives every byte back. */
  lemma TableWritesBack(bytes: seq<Byte>)
    requires WellFormed(bytes)
    ensures UsedOf(bytes) < Pow256(COUNTER_SIZE)
    ensures Serialized(SlotsOf(bytes), UsedOf(bytes)) == bytes
  {
    var n := (|bytes| - COUNTER_SIZE) / ENTRY_SIZE;
    SlotsWriteBack(bytes, n);
    NumberWritesBack(bytes[|bytes| - COUNTER_SIZE..]);
    assert bytes == bytes[..ENTRY_SIZE * n] + bytes[ENTRY_SIZE * n..];
  }

  // ----- The format, byte by byte -----

  /** The bytes of a table: sixteen of the key and one of the pointer for each slot, and then
      eight of the counter, the lowest first. */
  ghost predicate Layout(bytes: seq<Byte>, slots: seq<Entry>, used: nat) {
    && |bytes| == 17 * |slots| + 8
    && (forall i :: 0 <= i < |slots| ==> SlotLayout(bytes, i, slots[i]))
    && used == EightBytes(bytes[17 * |slots|..])
  }

  ghost predicate SlotLayout(bytes: seq<Byte>, i: nat, e: Entry) {
    && 17 * i + 17 <= |bytes|
    && (forall j :: 0 <= j < 16 ==> bytes[17 * i + j] == e.key.bytes[j])
    && bytes[17 * i + 16] == e.ptr.raw
  }

  function EightBytes(b: seq<nat>): nat
    requires |b| == 8
  {
    b[0] + 0x100 * b[1] + 0x1_0000 * b[2] + 0x100_0000 * b[3] + 0x1_0000_0000 * b[4]
    + 0x100_0000_0000 * b[5] + 0x1_0000_0000_0000 * b[6] + 0x100_0000_0000_0000 * b[7]
  }

  lemma NumberIsWeighted(b: seq<Byte>)
    requires |b| == 8
    ensures NumberOf(b) == EightBytes(b)
  {
    NumberOfTwo(b);
    NumberOfTwo(b[2..]);
    NumberOfTwo(b[4..]);
    NumberOfTwo(b[6..]);
    assert b[2..][2..] == b[4..] && b[4..][2..] == b[6..] && b[6..][2..] == [];
  }

  lemma NumberOfTwo(b: seq<Byte>)
    requires |b| >= 2
    ensures NumberOf(b) == b[0] + 0x100 * b[1] + 0x1_0000 * NumberOf(b[2..])
  {
    assert b[1..][1..] == b[2..];
  }

  lemma WellFormedLengths(bytes: seq<Byte>)
    ensures WellFormed(bytes) <==> exists slots: nat :: |bytes| == 17 * slots + 8
  {
    if WellFormed(bytes) {
      assert |bytes| == 17 * ((|bytes| - 8) / 17) + 8;
    }
  }

  /** What is read from bytes is what the format says. */
  lemma ReadAsLaidOut(bytes: seq<Byte>)
    requires WellFormed(bytes)
    ensures Layout(bytes, SlotsOf(bytes), UsedOf(bytes))
  {
    NumberIsWeighted(bytes[|bytes| - COUNTER_SIZE..]);
    forall i | 0 <= i < |SlotsOf(bytes)|
      ensures SlotLayout(bytes, i, SlotsOf(bytes)[i])
    {
      EntryIsLaidOut(bytes, i);
    }
  }

  lemma EntryIsLaidOut(bytes: seq<Byte>, i: nat)
    requires 17 * i + 17 <= |bytes|
    ensures SlotLayout(bytes, i, EntryAt(bytes, i))
  {
  }

  /** And so is what is written. */
  lemma WrittenAsLaidOut(slots: seq<Entry>, used: nat)
    requires used < 0x1_0000_0000_0000_0000
    ensures Layout(Serialized(slots, used), slots, used)
  {
    TableReadsBack(slots, used);
    ReadAsLaidOut(Serialized(slots, used));
  }

  /** The format leaves no choice: the bytes give the table, and the table the bytes. */
  lemma LayoutDecides(bytes: seq<Byte>, slots: seq<Entry>, used: nat)
    requires used < 0x1_0000_0000_0000_0000
    ensures Layout(bytes, slots, used) <==> bytes == Serialized(slots, used)
    ensures Layout(bytes, slots, used) <==> WellFormed(bytes) && slots == SlotsOf(bytes) && used == UsedOf(bytes)
  {
    WrittenAsLaidOut(slots, used);
    TableReadsBack(slots, used);
    if WellFormed(bytes) {
      ReadAsLaidOut(bytes);
    }
    if Layout(bytes, slots, used) {
      SameSlots(bytes, slots, SlotsOf(bytes));
      TableWritesBack(bytes);
    }
  }

  lemma SameSlots(bytes: seq<Byte>, slots: seq<Entry>, others: seq<Entry>)
    requires |slots| == |others|
    requires forall i :: 0 <= i < |slots| ==> SlotLayout(bytes, i, slots[i]) && SlotLayout(bytes, i, others[i])
    ensures slots == others
  {
    forall i | 0 <= i < |slots|
      ensures slots[i] == others[i]
    {
      assert slots[i].key.bytes == others[i].key.bytes;
    }
  }

  /** The bytes of an empty table: 0x7F for each pointer, and zero for all else. */
  ghost predicate EmptyTable(bytes: seq<Byte>, slots: nat) {
    && |bytes| == 17 * slots + 8
    && forall p :: 0 <= p < |bytes| ==> bytes[p] == if p < 17 * slots && p % 17 == 16 then 0x7F else 0
  }

  lemma FreeSlotsAreEmptyTable(bytes: seq<Byte>)
    requires WellFormed(bytes) && UsedOf(bytes) == 0
    requires forall i :: 0 <= i < |SlotsOf(bytes)| ==> SlotsOf(bytes)[i] == FREE_ENTRY
    ensures EmptyTable(bytes, |SlotsOf(bytes)|)
  {
    var slots := SlotsOf(bytes);
    ReadAsLaidOut(bytes);
    forall p | 0 <= p < |bytes|
      ensures bytes[p] == if p < 17 * |slots| && p % 17 == 16 then 0x7F else 0
    {
      if p < 17 * |slots| {
        assert SlotLayout(bytes, p / 17, slots[p / 17]) && p == 17 * (p / 17) + p % 17;
      } else {
        assert bytes[p] == bytes[17 * |slots|..][p - 17 * |slots|];
      }
    }
  }
}
