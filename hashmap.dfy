/**
 * The map in its buffer: a header and `capacity` buckets, each a status byte, key bytes and
 * value bytes. The header fields are the fields of `HashMap`; the bucket array is three arrays
 * the operations update in place, one per bucket part. A pointer into the value bytes of a
 * bucket is that bucket's index, and a null pointer is `None`. Every operation is proved
 * against the specifications of `Probing`, `Cursor` and `Merge`.
 */
module HashMapMem {
  import opened Wrappers
  import opened MapLayout
  import opened Probing
  import opened ProbingProperties
  import opened Cursor
  import opened Merge

  /** `matches_key`: whether the first `len` bytes of two keys agree, byte by byte for short
      keys and as whole slices otherwise. */
  method MatchesKey(a: Key, b: Key, len: nat) returns (same: bool)
    requires len <= |a| && len <= |b|
    ensures same <==> a[..len] == b[..len]
  {
    if len <= 16 {
      if len == 0 {
        return true;
      }
      for i := 0 to len
        invariant a[..i] == b[..i]
      {
        if a[i] != b[i] {
          assert a[..len][i] != b[..len][i];
          return false;
        }
        assert a[..i + 1] == a[..i] + [a[i]];
        assert b[..i + 1] == b[..i] + [b[i]];
      }
      return true;
    } else {
      return a[..len] == b[..len];
    }
  }

  /** Two keys of the map's key size that agree on all `keySize` bytes are the same key. */
  lemma SameKey(a: Key, b: Key, keySize: nat)
    requires |a| == keySize && |b| == keySize && a[..keySize] == b[..keySize]
    ensures a == b
  {
    assert a == a[..keySize] && b == b[..keySize];
  }

  class HashMap {
    // The header.
    const capacity: nat
    var elementCount: nat
    const keySize: nat
    const valueSize: nat
    const valueOffset: nat
    const bucketSize: nat
    const logicalLimit: nat
    const keyOffset: nat
    const secretCode: nat

    /** The key hash; the map's behaviour is proved for every hash function. */
    const hash: Key -> nat

    // The buckets: status byte, key bytes and value bytes of each.
    const status: array<Status>
    const keys: array<Key>
    const values: array<Value>

    /** The buckets as a value. */
    ghost function Buckets(): Table
      reads this, status, keys, values
    {
      Table(status[..], keys[..], values[..])
    }

    /** An initialised map: the bucket parts line up, the capacity is a power of two that fits
        the 16-bit header field, the magic byte is set, every key and value has the width the
        header gives, `element_count` is the number of Occupied buckets, and the buckets are
        well formed (unique keys, each inside its unbroken probe window). */
    ghost predicate Valid()
      reads this, status, keys, values
    {
      && status.Length == capacity && keys.Length == capacity && values.Length == capacity
      && keys != values
      && IsPowerOfTwo(capacity) && capacity < U16_LIMIT
      && secretCode == SECRET_CODE
      && (forall i :: 0 <= i < keys.Length ==> |keys[i]| == keySize)
      && (forall i :: 0 <= i < values.Length ==> |values[i]| == valueSize)
      && elementCount == OccupiedCount(status[..]) && elementCount < U16_LIMIT
      && WellFormed(Buckets(), hash)
    }

    /** `init`: writes the header from `config` and the bucket layout, and marks every bucket
        Empty. The key and value bytes keep whatever the buffer held. */
    constructor Init(config: MapInit, hash: Key -> nat, status: array<Status>, keys: array<Key>, values: array<Value>)
      requires IsPowerOfTwo(config.capacity) && config.capacity < U16_LIMIT
      requires IsAlignment(config.keyAlignment) && IsAlignment(config.valueAlignment)
      requires LayoutFits(config.keySize, config.valueSize)
      requires status.Length == config.capacity && keys.Length == config.capacity && values.Length == config.capacity
      requires keys != values
      requires forall i :: 0 <= i < keys.Length ==> |keys[i]| == config.keySize
      requires forall i :: 0 <= i < values.Length ==> |values[i]| == config.valueSize
      modifies status
      ensures Valid()
      ensures this.status == status && this.keys == keys && this.values == values && this.hash == hash
      ensures capacity == config.capacity && logicalLimit == config.logicalLimit
      ensures keySize == config.keySize && valueSize == config.valueSize
      ensures var l := CalculateBucketLayout(config.keySize, config.keyAlignment, config.valueSize, config.valueAlignment);
        bucketSize == l.bucketSize && keyOffset == l.keyOffset && valueOffset == l.valueOffset
      ensures elementCount == 0 && secretCode == SECRET_CODE
      ensures Buckets() == Cleared(old(Table(status[..], keys[..], values[..])))
      ensures KeySet(Buckets()) == {}
    {
      ghost var before := Table(status[..], keys[..], values[..]);
      var l := CalculateBucketLayout(config.keySize, config.keyAlignment, config.valueSize, config.valueAlignment);
      this.capacity := config.capacity;
      this.logicalLimit := config.logicalLimit;
      this.keySize := config.keySize;
      this.valueSize := config.valueSize;
      this.bucketSize := l.bucketSize;
      this.keyOffset := l.keyOffset;
      this.valueOffset := l.valueOffset;
      this.elementCount := 0;
      this.secretCode := SECRET_CODE;
      this.hash := hash;
      this.status := status;
      this.keys := keys;
      this.values := values;
      new;
      for i := 0 to config.capacity
        invariant forall k :: 0 <= k < i ==> status[k] == Empty
        invariant elementCount == 0
      {
        status[i] := Empty;
      }
      assert status[..] == Cleared(before).status;
      assert Buckets() == Cleared(before);
      ClearedIsWellFormed(before, hash);
    }

    /** Marks bucket `i` Occupied, copies `key` into it and counts the new entry; the 16-bit
        count cannot overflow. */
    method Claim(i: nat, key: Key)
      requires i < status.Length && i < keys.Length && elementCount + 1 < U16_LIMIT
      modifies this`elementCount, status, keys
      ensures status[..] == old(status[..])[i := Occupied] && keys[..] == old(keys[..])[i := key]
      ensures elementCount == old(elementCount) + 1
    {
      status[i] := Occupied;
      keys[i] := key;
      elementCount := elementCount + 1;
    }

    /** `get_or_reserve_entry`: the bounded probe for `key`. It hands back the bucket already
        holding `key`, or claims the first tombstone it passed (else the Empty bucket that ended
        the probe) for `key`, or, when the whole window holds other keys, `None` with the map
        untouched. */
    method GetOrReserveEntry(key: Key) returns (r: Option<nat>)
      requires Valid() && keySize > 0 && |key| == keySize
      modifies this`elementCount, status, keys
      ensures Valid()
      ensures var res := Reserve(old(Buckets()), hash, key);
        && r == ReservedIndex(res)
        && Buckets() == AfterReserve(old(Buckets()), res, key)
        && elementCount == old(elementCount) + (if res.Fresh? then 1 else 0)
    {
      ghost var t := Buckets();
      var home := Home(hash(key), capacity);
      var index := home;
      var firstTombstone: Option<nat> := None;
      var probeLimit := ProbeLimit(capacity);
      for step := 0 to probeLimit
        invariant index == Slot(home, step, capacity)
        invariant firstTombstone.Some? ==> firstTombstone.value < capacity
        invariant Reserve(t, hash, key) == ReserveFrom(t.status, t.keys, home, key, step, firstTombstone)
        invariant Buckets() == t && elementCount == old(elementCount)
      {
        match status[index] {
          case Empty =>
            var target := if firstTombstone.Some? then firstTombstone.value else index;
            ClaimReserved(t, key, target);
            return Some(target);
          case Occupied =>
            var same := MatchesKey(keys[index], key, keySize);
            if same {
              SameKey(keys[index], key, keySize);
              assert Reserve(t, hash, key) == Existing(index);
              return Some(index);
            }
          case Tombstone =>
            if firstTombstone.None? {
              firstTombstone := Some(index);
            }
        }
        SlotStep(home, step, capacity);
        index := (index + 1) % capacity;
      }
      match firstTombstone {
        case Some(target) =>
          ClaimReserved(t, key, target);
          return Some(target);
        case None =>
          assert Reserve(t, hash, key) == Full;
          return None;
      }
    }

    /** The claim `get_or_reserve_entry` makes once the probe chose a fresh bucket: the map
        becomes the table the specification gives and stays initialised. */
    method ClaimReserved(ghost t: Table, key: Key, target: nat)
      requires Valid() && t == Buckets() && |key| == keySize
      requires Reserve(t, hash, key) == Fresh(target)
      modifies this`elementCount, status, keys
      ensures Valid()
      ensures Buckets() == AfterReserve(t, Fresh(target), key)
      ensures elementCount == old(elementCount) + 1
    {
      ReservePreserves(t, hash, key);
      ReserveOutcomes(t, hash, key);
      OccupiedCountBound(t.status);
      Claim(target, key);
      assert Buckets() == Occupy(t, target, key);
    }

    /** `lookup`: the bucket holding `key`, found by the same bounded probe; it stops at the
        first Empty bucket and changes nothing. */
    method Lookup(key: Key) returns (r: Option<nat>)
      requires Valid() && keySize > 0 && |key| == keySize
      ensures r == Find(Buckets(), hash, key)
      ensures r.Some? <==> key in KeySet(Buckets())
      ensures r.Some? ==> r.value < capacity && status[r.value] == Occupied && keys[r.value] == key
    {
      ghost var t := Buckets();
      FindCorrect(t, hash, key);
      var home := Home(hash(key), capacity);
      var index := home;
      var probeLimit := ProbeLimit(capacity);
      for step := 0 to probeLimit
        invariant index == Slot(home, step, capacity)
        invariant Find(t, hash, key) == FindFrom(t.status, t.keys, home, key, step)
      {
        match status[index] {
          case Empty =>
            return None;
          case Occupied =>
            var same := MatchesKey(keys[index], key, keySize);
            if same {
              SameKey(keys[index], key, keySize);
              assert Find(t, hash, key) == Some(index);
              return Some(index);
            }
          case Tombstone =>
        }
        SlotStep(home, step, capacity);
        index := (index + 1) % capacity;
      }
      return None;
    }

    /** `has`: whether `key` is in the map. */
    method Has(key: Key) returns (b: bool)
      requires Valid() && keySize > 0 && |key| == keySize
      ensures b <==> key in KeySet(Buckets())
      ensures b <==> Get(Buckets(), hash, key).Some?
    {
      var r := Lookup(key);
      b := r.Some?;
    }

    /** `remove`: turns the bucket holding `key` into a tombstone, leaving its key and value
        bytes in place, and counts one entry fewer; an absent key changes nothing. */
    method Remove(key: Key) returns (removed: bool)
      requires Valid() && keySize > 0 && |key| == keySize
      modifies this`elementCount, status
      ensures Valid()
      ensures removed <==> key in KeySet(old(Buckets()))
      ensures Buckets() == AfterRemove(old(Buckets()), hash, key)
      ensures elementCount == old(elementCount) - (if removed then 1 else 0)
    {
      ghost var t := Buckets();
      FindCorrect(t, hash, key);
      var home := Home(hash(key), capacity);
      var index := home;
      var probeLimit := ProbeLimit(capacity);
      for step := 0 to probeLimit
        invariant index == Slot(home, step, capacity)
        invariant Find(t, hash, key) == FindFrom(t.status, t.keys, home, key, step)
        invariant Buckets() == t && elementCount == old(elementCount)
      {
        match status[index] {
          case Empty =>
            return false;
          case Occupied =>
            var same := MatchesKey(keys[index], key, keySize);
            if same {
              SameKey(keys[index], key, keySize);
              assert Find(t, hash, key) == Some(index);
              TombstoneFound(t, key, index);
              return true;
            }
          case Tombstone =>
        }
        SlotStep(home, step, capacity);
        index := (index + 1) % capacity;
      }
      return false;
    }

    /** The write `remove` makes once the probe found `key` in bucket `i`: the map becomes the
        table the specification gives and stays initialised. */
    method TombstoneFound(ghost t: Table, key: Key, i: nat)
      requires Valid() && t == Buckets() && Find(t, hash, key) == Some(i)
      modifies this`elementCount, status
      ensures Valid()
      ensures Buckets() == AfterRemove(t, hash, key)
      ensures elementCount == old(elementCount) - 1
    {
      RemoveCorrect(t, hash, key);
      OccupiedAfterWrite(t.status, i, Tombstone);
      status[i] := Tombstone;
      elementCount := elementCount - 1;
      assert Buckets() == Vacate(t, i);
    }

    /** The caller's write of `v` through the value location of bucket `i`. */
    method SetValue(i: nat, v: Value)
      requires Valid() && i < capacity && |v| == valueSize
      modifies values
      ensures Valid()
      ensures Buckets() == StoreValue(old(Buckets()), i, v)
    {
      StoreKeepsKeys(Buckets(), hash, i, v);
      values[i] := v;
      assert Buckets() == StoreValue(old(Buckets()), i, v);
    }

    /** `find_next_valid_entry`: the first Occupied bucket at or after `start` in storage
        order, whose key and value locations are handed back, and its 16-bit index; none
        and the index 0xFFFF when no entry is left. */
    method FindNextValidEntry(start: nat) returns (entry: Option<nat>, index: nat)
      requires Valid() && start < U16_LIMIT
      ensures entry == NextOccupied(status[..], start)
      ensures index == CursorIndex(entry) && index < U16_LIMIT
      ensures index == NO_MORE_ENTRIES <==> entry.None?
    {
      var i := start;
      while i < capacity
        invariant start <= i
        invariant NextOccupied(status[..], i) == NextOccupied(status[..], start)
        decreases capacity - i
      {
        if status[i] == Occupied {
          return Some(i), i;
        }
        i := i + 1;
      }
      return None, NO_MORE_ENTRIES;
    }

    /** `overwrite`: copies every entry of `source` into this map. It refuses at once, changing
        nothing, when the source holds more entries than this map's logical limit; otherwise it
        reserves each Occupied source key, in source index order, and copies the value bytes
        into the reserved bucket, giving up at the first key this map refuses. */
    method Overwrite(source: HashMap) returns (ok: bool)
      requires Valid() && source.Valid() && keySize > 0
      requires source != this && source.status != status
      requires source.keys != keys && source.keys != values && source.values != keys && source.values != values
      requires source.keySize == keySize && source.valueSize == valueSize && source.bucketSize == bucketSize
      modifies this`elementCount, status, keys, values
      ensures Valid()
      ensures old(logicalLimit < source.elementCount) ==>
        !ok && Buckets() == old(Buckets()) && elementCount == old(elementCount)
      ensures old(source.elementCount <= logicalLimit) ==>
        var c := CopyFrom(old(Buckets()), hash, source.Buckets(), 0);
        ok == c.ok && Buckets() == c.table
      ensures ok ==> KeySet(Buckets()) == old(KeySet(Buckets())) + KeySet(source.Buckets())
      ensures ok ==> elementCount == old(elementCount) + |KeySet(source.Buckets()) - old(KeySet(Buckets()))|
      ensures ok && KeySet(source.Buckets()) !! old(KeySet(Buckets())) ==>
        elementCount == old(elementCount) + source.elementCount
      ensures ok ==> forall k :: k in KeySet(source.Buckets()) ==>
        Get(Buckets(), hash, k) == Get(source.Buckets(), source.hash, k)
      ensures ok ==> forall k :: k !in KeySet(source.Buckets()) ==>
        Get(Buckets(), hash, k) == old(Get(Buckets(), hash, k))
    {
      if logicalLimit < source.elementCount {
        return false;
      }
      ghost var src := source.Buckets();
      ghost var t0 := Buckets();
      ghost var goal := CopyFrom(t0, hash, src, 0);
      for i := 0 to source.capacity
        invariant Valid() && source.Valid() && source.Buckets() == src
        invariant goal == CopyFrom(Buckets(), hash, src, i)
      {
        if source.status[i] == Occupied {
          ghost var t := Buckets();
          var target := GetOrReserveEntry(source.keys[i]);
          if target.None? {
            return false;
          }
          SetValue(target.value, source.values[i]);
          assert CopyFrom(t, hash, src, i) == CopyFrom(Buckets(), hash, src, i + 1);
        }
      }
      CopyAllReadsSource(t0, hash, src, source.hash);
      if KeySet(src) !! KeySet(t0) {
        DisjointCopyCount(t0, src);
      }
      return true;
    }
  }
}
