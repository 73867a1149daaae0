/** The Bloom filter in front of a shard's index (src/BloomFilter.cpp). */
module BloomFilter {
  import opened KeyValueTypes

  function MapToBitset(h: nat): (bit: nat)
    ensures bit < BLOOM_FILTER_SIZE
  {
    h % BLOOM_FILTER_SIZE
  }

  /** The bit is what is left of the hash after whole nineteens. */
  lemma BitIsRemainder(h: nat, q: nat, r: nat)
    requires r < 19 && h == 19 * q + r
    ensures MapToBitset(h) == r
  {
  }

  /** One of the seeds sends the key to the bit. */
  ghost predicate Touches(hash: Hasher, seeds: seq<nat>, key: Key, bit: nat) {
    exists i :: 0 <= i < |seeds| && MapToBitset(hash(key, seeds[i])) == bit
  }

  /** The bits are those some key of the set is sent to. */
  ghost predicate BitsOf(hash: Hasher, seeds: seq<nat>, bits: seq<bool>, keys: set<Key>)
    requires |bits| == BLOOM_FILTER_SIZE
  {
    forall bit :: 0 <= bit < BLOOM_FILTER_SIZE ==>
      (bits[bit] <==> exists key :: key in keys && Touches(hash, seeds, key, bit))
  }

  lemma BitsOfOneMore(hash: Hasher, seeds: seq<nat>, before: seq<bool>, after: seq<bool>, keys: set<Key>, key: Key)
    requires |before| == |after| == BLOOM_FILTER_SIZE && BitsOf(hash, seeds, before, keys)
    requires forall bit :: 0 <= bit < BLOOM_FILTER_SIZE ==>
               (after[bit] <==> before[bit] || Touches(hash, seeds, key, bit))
    ensures BitsOf(hash, seeds, after, keys + {key})
  {
    forall bit | 0 <= bit < BLOOM_FILTER_SIZE
      ensures after[bit] <==> exists k :: k in keys + {key} && Touches(hash, seeds, k, bit)
    {
      if Touches(hash, seeds, key, bit) {
        assert key in keys + {key};
      }
      if before[bit] {
        var k :| k in keys && Touches(hash, seeds, k, bit);
        assert k in keys + {key};
      }
    }
  }

  class BloomFilter {
    const hash: Hasher
    const seeds: seq<nat>
    var bitset: seq<bool>

    ghost predicate Valid()
      reads this
    {
      |bitset| == BLOOM_FILTER_SIZE && |seeds| == BLOOM_FILTER_HASH_FUNCTIONS_NUMBER
    }

    /** Every bit the key is sent to is set. */
    ghost predicate Passes(key: Key)
      requires Valid()
      reads this
    {
      forall bit :: 0 <= bit < BLOOM_FILTER_SIZE && Touches(hash, seeds, key, bit) ==> bitset[bit]
    }

    ghost predicate Filters(keys: set<Key>)
      requires Valid()
      reads this
    {
      BitsOf(hash, seeds, bitset, keys)
    }

    constructor (hash: Hasher)
      ensures Valid() && Filters({})
      ensures this.hash == hash && |seeds| == 2
    {
      this.hash := hash;
      var drawn: seq<nat> := [];
      for i := 0 to BLOOM_FILTER_HASH_FUNCTIONS_NUMBER
        invariant |drawn| == i
      {
        var seed: nat := *;
        drawn := drawn + [seed];
      }
      seeds := drawn;
      bitset := seq(BLOOM_FILTER_SIZE, _ => false);
    }

    method Add(key: Key)
      requires Valid()
      modifies this
      ensures Valid()
      ensures forall bit :: 0 <= bit < BLOOM_FILTER_SIZE ==>
                (bitset[bit] <==> old(bitset)[bit] || Touches(hash, seeds, key, bit))
    {
      for i := 0 to |seeds|
        invariant Valid()
        invariant forall bit :: 0 <= bit < BLOOM_FILTER_SIZE ==>
                    (bitset[bit] <==> old(bitset)[bit] || Touches(hash, seeds[..i], key, bit))
      {
        var at := MapToBitset(hash(key, seeds[i]));
        TouchesOneMore(hash, seeds, key, i);
        bitset := bitset[at := true];
      }
      assert seeds[..|seeds|] == seeds;
    }

    method CheckExist(key: Key) returns (found: bool)
      requires Valid()
      ensures found <==> Passes(key)
    {
      for i := 0 to |seeds|
        invariant forall j :: 0 <= j < i ==> bitset[MapToBitset(hash(key, seeds[j]))]
      {
        if !bitset[MapToBitset(hash(key, seeds[i]))] {
          assert Touches(hash, seeds, key, MapToBitset(hash(key, seeds[i])));
          return false;
        }
      }
      return true;
    }

    /** No false negative, and a false positive only where the added keys set all the bits. */
    lemma PassesIffCovered(keys: set<Key>, key: Key)
      requires Valid() && Filters(keys)
      ensures Passes(key) <==> forall bit :: 0 <= bit < BLOOM_FILTER_SIZE && Touches(hash, seeds, key, bit) ==>
                                 exists k :: k in keys && Touches(hash, seeds, k, bit)
      ensures key in keys ==> Passes(key)
    {
    }

    /** A key passes exactly if each of its two hashes agrees with a hash of some added key,
        modulo nineteen. */
    lemma PassesByHashes(keys: set<Key>, key: Key)
      requires Valid() && Filters(keys)
      ensures |seeds| == 2
      ensures Passes(key) <==> Meets(keys, hash(key, seeds[0])) && Meets(keys, hash(key, seeds[1]))
    {
      PassesSeedBySeed(key);
      BitIsMet(keys, 0, key);
      BitIsMet(keys, 1, key);
    }

    /** Some key of the set has a hash that agrees with this one, modulo nineteen. */
    ghost predicate Meets(keys: set<Key>, h: nat) {
      exists k :: k in keys && Agrees(hash, seeds, k, h)
    }

    lemma PassesSeedBySeed(key: Key)
      requires Valid()
      ensures Passes(key) <==> bitset[MapToBitset(hash(key, seeds[0]))] && bitset[MapToBitset(hash(key, seeds[1]))]
    {
      assert Touches(hash, seeds, key, MapToBitset(hash(key, seeds[0])));
      assert Touches(hash, seeds, key, MapToBitset(hash(key, seeds[1])));
    }

    lemma BitIsMet(keys: set<Key>, i: nat, key: Key)
      requires Valid() && Filters(keys) && i < |seeds|
      ensures bitset[MapToBitset(hash(key, seeds[i]))] <==> Meets(keys, hash(key, seeds[i]))
    {
      var h := hash(key, seeds[i]);
      BitIsRemainder(h, h / 19, h % 19);
      forall k
        ensures Touches(hash, seeds, k, MapToBitset(h)) <==> Agrees(hash, seeds, k, h)
      {
        AgreeingTouches(hash, seeds, k, h);
      }
    }
  }

  lemma AgreeingTouches(hash: Hasher, seeds: seq<nat>, key: Key, h: nat)
    ensures Touches(hash, seeds, key, MapToBitset(h)) <==> Agrees(hash, seeds, key, h)
  {
    BitIsRemainder(h, h / 19, h % 19);
    forall j | 0 <= j < |seeds|
      ensures MapToBitset(hash(key, seeds[j])) == hash(key, seeds[j]) % 19
    {
      BitIsRemainder(hash(key, seeds[j]), hash(key, seeds[j]) / 19, hash(key, seeds[j]) % 19);
    }
  }

  /** Under one of these seeds the hash of the key agrees with this number, modulo nineteen. */
  ghost predicate Agrees(hash: Hasher, seeds: seq<nat>, key: Key, h: nat) {
    exists j :: 0 <= j < |seeds| && hash(key, seeds[j]) % 19 == h % 19
  }

  lemma TouchesOneMore(hash: Hasher, seeds: seq<nat>, key: Key, i: nat)
    requires i < |seeds|
    ensures forall bit :: Touches(hash, seeds[..i + 1], key, bit) <==>
                          Touches(hash, seeds[..i], key, bit) || MapToBitset(hash(key, seeds[i])) == bit
  {
    forall bit
      ensures Touches(hash, seeds[..i + 1], key, bit) <==>
              Touches(hash, seeds[..i], key, bit) || MapToBitset(hash(key, seeds[i])) == bit
    {
      if Touches(hash, seeds[..i], key, bit) {
        var j :| 0 <= j < i && MapToBitset(hash(key, seeds[..i][j])) == bit;
        assert seeds[..i + 1][j] == seeds[..i][j];
      }
      if MapToBitset(hash(key, seeds[i])) == bit {
        assert seeds[..i + 1][i] == seeds[i];
      }
    }
  }
}
