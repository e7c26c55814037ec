/** The direct-mapped cache from page numbers to size classes (packed-cache-inl.h): each entry is one word that
    holds the high bits of a key and a value. */
module PackedCaches {

  import opened Wrappers
  import opened Bits

  const K_HASH_BITS: nat := 16
  const K_VALUE_BITS: nat := 7
  const K_SLOTS: nat := 65536
  const K_VALUES: nat := 128
  const K_INVALID_MASK: nat := 0x80
  const K_CLEARED: nat := 0x8080_8080_8080_8080

  /** Keys have 35 bits: 48-bit addresses, pages of 8 KB. */
  const K_KEYS: nat := 0x8_0000_0000

  function Hash(key: nat): (h: nat)
    ensures h < K_SLOTS
  {
    key % K_SLOTS
  }

  /** The key without its hash bits. */
  function KeyToUpper(key: nat): nat { Xor(key, Hash(key)) }

  lemma UpperIs(key: nat)
    ensures KeyToUpper(key) == key - key % K_SLOTS
    ensures Low(KeyToUpper(key), K_HASH_BITS) == 0
  {
    assert KeyToUpper(key) == key - key % K_SLOTS by {
      XorClears(key, K_HASH_BITS);
      Shift16(key);
    }
    var upper := KeyToUpper(key);
    assert upper % K_SLOTS == 0;
    assert Low(upper, K_HASH_BITS) == upper % K_SLOTS by { Shift16(upper); }
  }

  // ------------------------------------------------------------------ the cache as a value

  /** What a lookup of `key` gives for the entry of its slot: the value when the rest of the entry is the key's. */
  function EntryValue(entry: nat, key: nat): Option<nat> {
    if entry / K_VALUES == (key - key % K_SLOTS) / K_VALUES then Some(entry % K_VALUES) else None
  }

  function Get(cache: seq<nat>, key: nat): Option<nat>
    requires |cache| == K_SLOTS
  {
    EntryValue(cache[Hash(key)], key)
  }

  function PutIn(cache: seq<nat>, key: nat, value: nat): seq<nat>
    requires |cache| == K_SLOTS
  {
    cache[Hash(key) := key - key % K_SLOTS + value]
  }

  function InvalidateIn(cache: seq<nat>, key: nat): seq<nat>
    requires |cache| == K_SLOTS
  {
    cache[Hash(key) := key - key % K_SLOTS + K_INVALID_MASK]
  }

  /** A value is found after it was put, and only the keys of the same slot lose theirs. */
  lemma PutGet(cache: seq<nat>, key: nat, value: nat, other: nat)
    requires |cache| == K_SLOTS && value < K_VALUES
    ensures Get(PutIn(cache, key, value), other)
            == if other == key then Some(value) else if Hash(other) == Hash(key) then None else Get(cache, other)
  {
    UpperParts(key, value);
    if Hash(other) == Hash(key) && other != key { OtherUpper(key, other); }
  }

  /** After an invalidation nothing is found in that slot, whatever the key. */
  lemma InvalidateGet(cache: seq<nat>, key: nat, other: nat)
    requires |cache| == K_SLOTS
    ensures Get(InvalidateIn(cache, key), other) == if Hash(other) == Hash(key) then None else Get(cache, other)
  {
    var upper := key - key % K_SLOTS;
    UpperParts(other, 0);
    assert upper == key / K_SLOTS * K_SLOTS;
    assert (upper + K_INVALID_MASK) / K_VALUES == key / K_SLOTS * 512 + 1;
    assert (other - other % K_SLOTS) / K_VALUES == other / K_SLOTS * 512;
  }

  /** Nothing is found in a cleared cache. */
  lemma ClearGet(cache: seq<nat>, key: nat)
    requires |cache| == K_SLOTS && key < K_KEYS && cache[Hash(key)] == K_CLEARED
    ensures Get(cache, key) == None
  {
    assert K_CLEARED / K_VALUES > K_KEYS;
  }

  lemma UpperParts(key: nat, value: nat)
    requires value < K_VALUES
    ensures var upper := key - key % K_SLOTS;
            && (upper + value) / K_VALUES == upper / K_VALUES == key / K_SLOTS * 512
            && (upper + value) % K_VALUES == value
  {
    var upper := key - key % K_SLOTS;
    assert upper == key / K_SLOTS * K_SLOTS == key / K_SLOTS * 512 * K_VALUES;
  }

  lemma OtherUpper(key: nat, other: nat)
    requires key != other && Hash(key) == Hash(other)
    ensures (key - key % K_SLOTS) / K_VALUES != (other - other % K_SLOTS) / K_VALUES
  {
    UpperParts(key, 0);
    UpperParts(other, 0);
  }

  // ------------------------------------------------------------------ the cache as words

  class PackedCache {
    const array_: array<nat>

    ghost predicate Valid()
      reads this
    {
      array_.Length == K_SLOTS
    }

    constructor ()
      ensures Valid() && fresh(array_) && forall key: nat :: key < K_KEYS ==> Get(array_[..], key) == None
    {
      array_ := new nat[K_SLOTS](_ => K_CLEARED);
      new;
      forall key: nat | key < K_KEYS ensures Get(array_[..], key) == None { ClearGet(array_[..], key); }
    }

    /** One load; the entry must differ from the key's high bits in the value bits only. */
    method TryGet(key: nat) returns (r: Option<nat>)
      requires Valid()
      ensures r == Get(array_[..], key)
    {
      var hash := Hash(key);
      var expected := key - key % K_SLOTS;
      var entry := Xor(array_[hash], expected);
      Looked(array_[hash], key);
      return if entry >= K_VALUES then None else Some(entry);
    }

    method Clear()
      requires Valid()
      modifies array_
      ensures forall key: nat :: key < K_KEYS ==> Get(array_[..], key) == None
    {
      forall i | 0 <= i < K_SLOTS { array_[i] := K_CLEARED; }
      forall key: nat | key < K_KEYS ensures Get(array_[..], key) == None { ClearGet(array_[..], key); }
    }

    method Put(key: nat, value: nat)
      requires Valid() && value < K_VALUES
      modifies array_
      ensures array_[..] == PutIn(old(array_[..]), key, value)
    {
      Joined(key, value);
      array_[Hash(key)] := Or(KeyToUpper(key), value);
    }

    method Invalidate(key: nat)
      requires Valid()
      modifies array_
      ensures array_[..] == InvalidateIn(old(array_[..]), key)
    {
      Joined(key, K_INVALID_MASK);
      array_[Hash(key)] := Or(KeyToUpper(key), K_INVALID_MASK);
    }
  }

  /** The exclusive or of an entry with the expected high bits is the value, or too large to be one. */
  lemma Looked(entry: nat, key: nat)
    ensures var x := Xor(entry, key - key % K_SLOTS);
            EntryValue(entry, key) == if x >= K_VALUES then None else Some(x)
  {
    var expected := key - key % K_SLOTS;
    XorSmall(entry, expected, K_VALUE_BITS);
    Shift7(Xor(entry, expected));
    Shift7(entry);
    Shift7(expected);
    UpperParts(key, 0);
    if entry / K_VALUES == expected / K_VALUES { XorLow(entry, expected, K_VALUE_BITS); }
  }

  lemma Joined(key: nat, low: nat)
    requires low < K_SLOTS
    ensures Or(KeyToUpper(key), low) == key - key % K_SLOTS + low
  {
    UpperIs(key);
    Shift16(low);
    OrDisjoint(KeyToUpper(key), low, K_HASH_BITS);
  }
}
