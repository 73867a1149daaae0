/** Keys, values, pointers and the constants every part of the store shares
    (include/KeyValueTypes.h, src/KeyValueTypes.cpp). */
module KeyValueTypes {

  const VALUE_SIZE: nat := 2048
  const KEY_SIZE: nat := 16
  const CACHE_MAP_SIZE: nat := 5000
  const SHARD_NUMBER: nat := 4981
  const BLOOM_FILTER_SIZE: nat := 19
  const BLOOM_FILTER_HASH_FUNCTIONS_NUMBER: nat := 2
  const STORAGE_HASH_TABLE_INITIAL_SIZE: nat := 34  // 23 * 1.5, truncated
  const STORAGE_HASH_TABLE_MAX_SIZE: nat := 68
  const MAX_PTR_INDEX: nat := 120

  /** The most keys a shard's index holds: one more overfills a table of the maximal size. */
  const SHARD_CAPACITY: nat := 45

  datatype Option<+T> = None | Some(value: T)

  type Byte = b: int | 0 <= b < 256

  type KeyBytes = s: seq<Byte> | |s| == KEY_SIZE witness seq(KEY_SIZE, _ => 0)

  type ValueBytes = s: seq<Byte> | |s| == VALUE_SIZE witness seq(VALUE_SIZE, _ => 0)

  datatype Key = Key(bytes: KeyBytes)

  datatype Value = Value(bytes: ValueBytes)

  /** The all-zero key; it also fills the free slots of a table. */
  const DEFAULT_KEY := Key([0, 0, 0, 0, 0, 0, 0, 0, 0, 0, 0, 0, 0, 0, 0, 0])

  /** The hash function, taking a key and a seed. It stays arbitrary. */
  type Hasher = (Key, nat) -> nat

  /** The slot of a table of `size` slots at which the search for a key begins. */
  function Home(hash: Hasher, key: Key, size: nat): (slot: nat)
    requires size > 0
    ensures slot < size
  {
    hash(key, 0) % size
  }

  /** The home slot is what is left of the hash, under seed 0, after whole tables. */
  lemma HomeIsRemainder(hash: Hasher, key: Key, size: nat, q: nat, r: nat)
    requires r < size && hash(key, 0) == q * size + r
    ensures Home(hash, key, size) == r
  {
    RemainderIs(hash(key, 0), size, q, r);
  }

  lemma RemainderIs(h: nat, size: nat, q: nat, r: nat)
    requires r < size && h == q * size + r
    ensures h % size == r
  {
    MultipleIsBig(q - h / size, size);
    assert (q - h / size) * size == q * size - h / size * size;
  }

  lemma MultipleIsBig(k: int, size: nat)
    ensures k >= 1 ==> k * size >= size
    ensures k <= -1 ==> k * size + size <= 0
  {
  }

  datatype PtrType = PRESENT | DELETED | EMPTY | NONEXISTENT

  /** One byte: the top bit tells a present value from a deleted one, the low seven bits
      are the value's slot in the values file. Two bytes with the top bit clear are reserved. */
  datatype Ptr = Ptr(raw: Byte) {

    function GetType(): PtrType {
      if raw == 0x7F then EMPTY
      else if raw == 0x7E then NONEXISTENT
      else if raw >= 0x80 then PRESENT
      else DELETED
    }

    predicate IsEmpty() { GetType() == EMPTY }

    predicate IsPresent() { GetType() == PRESENT }

    predicate IsDeleted() { GetType() == DELETED }

    predicate IsNonexistent() { GetType() == NONEXISTENT }

    function GetIndex(): (index: nat)
      ensures index < 128
    {
      if raw >= 0x80 then raw - 0x80 else raw
    }

    function GetOffset(): nat {
      GetIndex() * VALUE_SIZE
    }

    function SetValuePresent(isPresent: bool): Ptr
      requires GetType() == PRESENT || GetType() == DELETED
    {
      if isPresent then Ptr(GetIndex() + 0x80) else Ptr(GetIndex())
    }

    /** The pointer to the value at a byte offset of the values file. */
    static function AtOffset(offset: nat, isPresent: bool): Ptr
      requires offset % VALUE_SIZE == 0
      requires offset / VALUE_SIZE <= MAX_PTR_INDEX
    {
      Ptr(offset / VALUE_SIZE).SetValuePresent(isPresent)
    }
  }

  const EMPTY_PTR := Ptr(0x7F)
  const NONEXISTENT_PTR := Ptr(0x7E)

  /** A slot of a hash table. */
  datatype Entry = Entry(key: Key, ptr: Ptr) {
    predicate IsFree() { ptr.IsEmpty() }
  }

  const FREE_ENTRY := Entry(DEFAULT_KEY, EMPTY_PTR)

  /** A pointer that names a value slot reads back the slot and the flag it was built from. */
  lemma AtOffsetReadsBack(index: nat, isPresent: bool)
    requires index <= MAX_PTR_INDEX
    ensures (index * VALUE_SIZE) % VALUE_SIZE == 0 && (index * VALUE_SIZE) / VALUE_SIZE == index
    ensures var ptr := Ptr.AtOffset(index * VALUE_SIZE, isPresent);
            && ptr.GetIndex() == index
            && ptr.GetOffset() == index * VALUE_SIZE
            && ptr.GetType() == if isPresent then PRESENT else DELETED
  {
    assert (index * VALUE_SIZE) / VALUE_SIZE == index;
  }

  /** Flipping the flag keeps the slot, and undoes itself, exactly when the slot number
      keeps clear of the two reserved ones. */
  lemma FlagFlipIsReversible(ptr: Ptr)
    requires ptr.IsPresent()
    ensures var marked := ptr.SetValuePresent(false);
            marked.IsDeleted() && marked.GetIndex() == ptr.GetIndex() && marked.SetValuePresent(true) == ptr
            <==> ptr.GetIndex() < 126
  {
  }

  /** The byte of the pointer to a value: its slot, and 128 more if it is present. */
  lemma AtOffsetIsByte(index: nat, isPresent: bool)
    requires index <= MAX_PTR_INDEX
    ensures index <= 120
    ensures (2048 * index) % VALUE_SIZE == 0 && (2048 * index) / VALUE_SIZE == index
    ensures Ptr.AtOffset(2048 * index, isPresent).raw == index + if isPresent then 128 else 0
  {
    AtOffsetReadsBack(index, isPresent);
  }

  /** The arithmetic above is the bit masking of the program, with the mask 0b10000000, and the
      reserved bytes are 0b01111111 and 0b01111110. */
  lemma MasksAreArithmetic(bits: bv8)
    ensures var ptr := Ptr(bits as int);
            && (ptr.IsEmpty() <==> bits == 0x7F)
            && (ptr.IsNonexistent() <==> bits == 0x7E)
            && (ptr.IsPresent() <==> bits & 0x80 != 0)
            && (ptr.IsDeleted() <==> bits & 0x80 == 0 && bits != 0x7F && bits != 0x7E)
            && ptr.GetOffset() == 2048 * (bits & 0x7F) as int
            && ptr.GetIndex() == (bits & 0x7F) as int
            && (ptr.raw >= 0x80 <==> bits & 0x80 != 0)
            && (ptr.IsPresent() || ptr.IsDeleted() ==>
                  && ptr.SetValuePresent(true).raw == (bits | 0x80) as int
                  && ptr.SetValuePresent(false).raw == (bits & 0x7F) as int)
  {
    if bits >= 0x80 {
      assert bits == 0x80 + (bits & 0x7F);
      assert bits | 0x80 == bits;
    } else {
      assert bits & 0x7F == bits;
      assert bits | 0x80 == 0x80 + bits;
    }
  }
}
