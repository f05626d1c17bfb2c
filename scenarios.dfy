/**
 * The three scenarios of the Rust code's tests, replayed as verified methods with an arbitrary
 * hash and an arbitrary buffer: the outcome each test checks is proved here for every hash function
 * and every prior buffer content. Keys and values are the tests' integers as little-endian
 * bytes.
 */
module Scenarios {
  import opened Wrappers
  import opened MapLayout
  import opened Probing
  import opened ProbingProperties
  import opened Cursor
  import opened Merge
  import opened HashMapMem

  /** How the tests insert: reserve the key and write the value bytes through the location
      handed back. While fewer entries are held than a probe visits, the reservation cannot
      fail; afterwards the key reads `v`, every other key reads as before, and the count rises
      by one exactly when the key was new. */
  method Insert(m: HashMap, key: Key, v: Value)
    requires m.Valid() && m.keySize > 0 && |key| == m.keySize && |v| == m.valueSize
    requires m.elementCount < ProbeLimit(m.capacity)
    modifies m`elementCount, m.status, m.keys, m.values
    ensures m.Valid()
    ensures Get(m.Buckets(), m.hash, key) == Some(v)
    ensures forall k :: k != key ==> Get(m.Buckets(), m.hash, k) == old(Get(m.Buckets(), m.hash, k))
    ensures KeySet(m.Buckets()) == old(KeySet(m.Buckets())) + {key}
    ensures m.elementCount == old(m.elementCount) + (if key in old(KeySet(m.Buckets())) then 0 else 1)
  {
    ghost var t := m.Buckets();
    RoomMeansNotFull(t, m.hash, key);
    ReservePreserves(t, m.hash, key);
    InsertThenGet(t, m.hash, key, v);
    var slot := m.GetOrReserveEntry(key);
    StoreKeepsKeys(m.Buckets(), m.hash, slot.value, v);
    m.SetValue(slot.value, v);
  }

  /** Two inserts of distinct keys into an empty map with room for both in one probe. */
  method InsertTwo(m: HashMap, key1: Key, v1: Value, key2: Key, v2: Value)
    requires m.Valid() && m.keySize > 0 && KeySet(m.Buckets()) == {} && m.elementCount == 0
    requires |key1| == m.keySize && |key2| == m.keySize && |v1| == m.valueSize && |v2| == m.valueSize
    requires key1 != key2 && 2 <= ProbeLimit(m.capacity)
    modifies m`elementCount, m.status, m.keys, m.values
    ensures m.Valid() && m.elementCount == 2
    ensures KeySet(m.Buckets()) == {key1, key2}
    ensures Get(m.Buckets(), m.hash, key1) == Some(v1) && Get(m.Buckets(), m.hash, key2) == Some(v2)
  {
    Insert(m, key1, v1);
    Insert(m, key2, v2);
  }

  /** The bytes a lookup of `key` points at, if it finds the key. */
  method Read(m: HashMap, key: Key) returns (found: Option<Value>)
    requires m.Valid() && m.keySize > 0 && |key| == m.keySize
    ensures found == Get(m.Buckets(), m.hash, key)
  {
    var at := m.Lookup(key);
    found := if at.Some? then Some(m.values[at.value]) else None;
  }

  /** What `layout` gives for 4-byte keys aligned to 4, 8-byte values aligned to 8 and a
      logical limit of 16. */
  method WideLayout() returns (config: MapInit)
    ensures config == MapInit(4, 4, 8, 8, 16, 16, 280)
  {
    assert IsPowerOfTwo(2) && IsPowerOfTwo(4) && IsPowerOfTwo(8);
    var (_, c) := Layout(4, 4, 8, 8, 16);
    LayoutExample();
    config := c;
  }

  /** What `layout` gives for 2-byte keys aligned to 2, 4-byte values aligned to 4 and a
      logical limit of 8. */
  method SmallLayout() returns (config: MapInit)
    ensures config == MapInit(2, 2, 4, 4, 8, 8, 88)
  {
    assert IsPowerOfTwo(2) && IsPowerOfTwo(4) && IsPowerOfTwo(8);
    var (_, c) := Layout(2, 2, 4, 4, 8);
    LayoutExampleSmall();
    config := c;
  }

  /** What `layout` gives for 4-byte keys and 4-byte values aligned to 4 and a logical limit
      of `limit`, 8 or 16. */
  method EvenLayout(limit: nat) returns (config: MapInit)
    requires limit == 8 || limit == 16
    ensures config == MapInit(4, 4, 4, 4, limit, limit, if limit == 8 then 120 else 216)
    ensures CalculateBucketLayout(4, 4, 4, 4) == BucketLayout(12, 4, 8)
  {
    assert IsPowerOfTwo(2) && IsPowerOfTwo(4) && IsPowerOfTwo(8) && IsPowerOfTwo(16);
    var (_, c) := Layout(4, 4, 4, 4, limit);
    if limit == 8 {
      LayoutExampleEven();
    } else {
      LayoutExampleEvenLarger();
    }
    config := c;
  }

  /** A fresh map of 16 empty buckets for 4-byte keys and 8-byte values, as `layout` sizes it. */
  method EmptyWide(hash: Key -> nat, status: array<Status>, keys: array<Key>, values: array<Value>)
      returns (m: HashMap)
    requires status.Length == 16 && keys.Length == 16 && values.Length == 16 && keys != values
    requires forall i :: 0 <= i < 16 ==> |keys[i]| == 4 && |values[i]| == 8
    modifies status
    ensures fresh(m) && m.Valid() && m.hash == hash
    ensures m.status == status && m.keys == keys && m.values == values
    ensures m.keySize == 4 && m.valueSize == 8 && m.capacity == 16
    ensures m.elementCount == 0 && KeySet(m.Buckets()) == {}
  {
    var config := WideLayout();
    assert IsPowerOfTwo(2) && IsPowerOfTwo(4) && IsPowerOfTwo(8) && IsPowerOfTwo(16);
    m := new HashMap.Init(config, hash, status, keys, values);
  }

  /** A fresh map of 8 empty buckets for 2-byte keys and 4-byte values, as `layout` sizes it. */
  method EmptySmall(hash: Key -> nat, status: array<Status>, keys: array<Key>, values: array<Value>)
      returns (m: HashMap)
    requires status.Length == 8 && keys.Length == 8 && values.Length == 8 && keys != values
    requires forall i :: 0 <= i < 8 ==> |keys[i]| == 2 && |values[i]| == 4
    modifies status
    ensures fresh(m) && m.Valid() && m.hash == hash
    ensures m.status == status && m.keys == keys && m.values == values
    ensures m.keySize == 2 && m.valueSize == 4 && m.capacity == 8
    ensures m.elementCount == 0 && KeySet(m.Buckets()) == {}
  {
    var config := SmallLayout();
    assert IsPowerOfTwo(2) && IsPowerOfTwo(4) && IsPowerOfTwo(8);
    m := new HashMap.Init(config, hash, status, keys, values);
  }

  /** A fresh map of 16 buckets holding a 4-byte key with 8 value bytes: one entry, and the
      lookup of the key reads the bytes written through the reserved location. */
  method InsertThenLookup(hash: Key -> nat, status: array<Status>, keys: array<Key>, values: array<Value>)
      returns (count: nat, found: Option<Value>)
    requires status.Length == 16 && keys.Length == 16 && values.Length == 16 && keys != values
    requires forall i :: 0 <= i < 16 ==> |keys[i]| == 4 && |values[i]| == 8
    modifies status, keys, values
    ensures count == 1
    ensures found == Some([0x89, 0x67, 0x45, 0x23, 0x01, 0xEF, 0xCD, 0xAB])
  {
    var m := EmptyWide(hash, status, keys, values);
    var key: Key := [0x78, 0x56, 0x34, 0x12];
    assert key !in KeySet(m.Buckets()) && m.elementCount == 0;
    Insert(m, key, [0x89, 0x67, 0x45, 0x23, 0x01, 0xEF, 0xCD, 0xAB]);
    count := m.elementCount;
    found := Read(m, key);
  }

  /** Two 2-byte keys in a fresh map of 8 buckets; removing the first leaves one entry, the
      first key not found and the second still reading its value. */
  method RemoveOneOfTwo(hash: Key -> nat, status: array<Status>, keys: array<Key>, values: array<Value>)
      returns (countBefore: nat, removed: bool, countAfter: nat, first: Option<Value>, second: Option<Value>)
    requires status.Length == 8 && keys.Length == 8 && values.Length == 8 && keys != values
    requires forall i :: 0 <= i < 8 ==> |keys[i]| == 2 && |values[i]| == 4
    modifies status, keys, values
    ensures countBefore == 2 && removed && countAfter == 1
    ensures first == None && second == Some([0xD0, 0x07, 0, 0])
  {
    var m := EmptySmall(hash, status, keys, values);
    var key1: Key, key2: Key := [100, 0], [200, 0];
    InsertTwo(m, key1, [0xE8, 0x03, 0, 0], key2, [0xD0, 0x07, 0, 0]);
    countBefore := m.elementCount;
    ghost var t := m.Buckets();
    RemoveCorrect(t, hash, key1);
    removed := m.Remove(key1);
    countAfter := m.elementCount;
    first := Read(m, key1);
    second := Read(m, key2);
  }

  /** A small non-negative integer as the four little-endian bytes of an `i32`. */
  function I32(x: nat): (b: seq<bv8>)
    requires x < 0x100
    ensures |b| == 4 && b[0] == x as bv8
  {
    [x as bv8, 0, 0, 0]
  }

  /** Three inserts of distinct keys into an empty map with room for all three in one probe. */
  method InsertThree(m: HashMap, a: Key, va: Value, b: Key, vb: Value, c: Key, vc: Value)
    requires m.Valid() && m.keySize > 0 && KeySet(m.Buckets()) == {} && m.elementCount == 0
    requires |a| == m.keySize && |b| == m.keySize && |c| == m.keySize
    requires |va| == m.valueSize && |vb| == m.valueSize && |vc| == m.valueSize
    requires a != b && a != c && b != c && 3 <= ProbeLimit(m.capacity)
    modifies m`elementCount, m.status, m.keys, m.values
    ensures m.Valid() && m.elementCount == 3
    ensures KeySet(m.Buckets()) == {a, b, c}
    ensures Get(m.Buckets(), m.hash, a) == Some(va)
    ensures Get(m.Buckets(), m.hash, b) == Some(vb)
    ensures Get(m.Buckets(), m.hash, c) == Some(vc)
  {
    InsertTwo(m, a, va, b, vb);
    Insert(m, c, vc);
  }

  /** A set of three distinct keys has three members. */
  lemma ThreeKeys(s: set<Key>, a: Key, b: Key, c: Key)
    requires s == {a, b, c} && a != b && a != c && b != c
    ensures |s| == 3
  {
    assert s == {a, b} + {c};
  }

  /** What a successful overwrite of three distinct source keys into an empty target leaves:
      three entries, each key reading its source value. */
  lemma CopiedThree(t: Table, u: Table, hash: Key -> nat, src: Table, a: Key, b: Key, c: Key)
    requires t.Shaped() && u.Shaped() && src.Shaped()
    requires a != b && a != c && b != c && KeySet(src) == {a, b, c} && KeySet(t) == {}
    requires forall k :: k in KeySet(src) ==> Get(u, hash, k) == Get(src, hash, k)
    ensures |KeySet(src) - KeySet(t)| == 3
    ensures Get(u, hash, a) == Get(src, hash, a)
    ensures Get(u, hash, b) == Get(src, hash, b)
    ensures Get(u, hash, c) == Get(src, hash, c)
  {
    assert KeySet(src) - KeySet(t) == KeySet(src);
    ThreeKeys(KeySet(src), a, b, c);
  }

  /** An overwrite from a source holding three keys into an empty target with room for them
      in one probe succeeds, and the target then holds exactly the three keys, each with its
      source value. */
  method CopyThree(target: HashMap, source: HashMap, a: Key, va: Value, b: Key, vb: Value, c: Key, vc: Value)
      returns (ok: bool)
    requires target.Valid() && source.Valid()
    requires source != target && source.status != target.status
    requires source.keys != target.keys && source.keys != target.values
    requires source.values != target.keys && source.values != target.values
    requires source.keySize == target.keySize && source.valueSize == target.valueSize
    requires source.bucketSize == target.bucketSize && source.hash == target.hash
    requires KeySet(target.Buckets()) == {} && target.elementCount == 0
    requires 3 <= target.logicalLimit && 3 <= ProbeLimit(target.capacity)
    requires a != b && a != c && b != c
    requires source.elementCount == 3 && KeySet(source.Buckets()) == {a, b, c}
    requires Get(source.Buckets(), source.hash, a) == Some(va)
    requires Get(source.Buckets(), source.hash, b) == Some(vb)
    requires Get(source.Buckets(), source.hash, c) == Some(vc)
    modifies target`elementCount, target.status, target.keys, target.values
    ensures target.Valid() && ok && target.elementCount == 3
    ensures Get(target.Buckets(), target.hash, a) == Some(va)
    ensures Get(target.Buckets(), target.hash, b) == Some(vb)
    ensures Get(target.Buckets(), target.hash, c) == Some(vc)
  {
    ghost var src := source.Buckets();
    ghost var t := target.Buckets();
    assert OccupiedFrom(src.status, 0) == OccupiedIndices(src.status);
    CopyFromSucceeds(t, target.hash, src, 0);
    ok := target.Overwrite(source);
    assert source.Buckets() == src;
    CopiedThree(t, target.Buckets(), target.hash, src, a, b, c);
  }

  /** The source map of the overwrite test: 8 buckets of 4-byte keys and 4-byte values,
      holding keys 0, 1, 2 with values 0, 100, 200. */
  method CountingSource(hash: Key -> nat, status: array<Status>, keys: array<Key>, values: array<Value>)
      returns (m: HashMap)
    requires status.Length == 8 && keys.Length == 8 && values.Length == 8 && keys != values
    requires forall i :: 0 <= i < 8 ==> |keys[i]| == 4 && |values[i]| == 4
    modifies status, keys, values
    ensures fresh(m) && m.Valid() && m.hash == hash
    ensures m.status == status && m.keys == keys && m.values == values
    ensures m.keySize == 4 && m.valueSize == 4 && m.bucketSize == 12
    ensures m.elementCount == 3 && KeySet(m.Buckets()) == {I32(0), I32(1), I32(2)}
    ensures Get(m.Buckets(), hash, I32(0)) == Some(I32(0))
    ensures Get(m.Buckets(), hash, I32(1)) == Some(I32(100))
    ensures Get(m.Buckets(), hash, I32(2)) == Some(I32(200))
  {
    var config := EvenLayout(8);
    assert IsPowerOfTwo(2) && IsPowerOfTwo(4) && IsPowerOfTwo(8);
    m := new HashMap.Init(config, hash, status, keys, values);
    assert I32(0) != I32(1) && I32(0) != I32(2) && I32(1) != I32(2) by {
      assert I32(0)[0] == 0 && I32(1)[0] == 1 && I32(2)[0] == 2;
    }
    InsertThree(m, I32(0), I32(0), I32(1), I32(100), I32(2), I32(200));
  }

  /** The target map of the overwrite test: 16 empty buckets of 4-byte keys and 4-byte
      values. */
  method EmptyTarget(hash: Key -> nat, status: array<Status>, keys: array<Key>, values: array<Value>)
      returns (m: HashMap)
    requires status.Length == 16 && keys.Length == 16 && values.Length == 16 && keys != values
    requires forall i :: 0 <= i < 16 ==> |keys[i]| == 4 && |values[i]| == 4
    modifies status
    ensures fresh(m) && m.Valid() && m.hash == hash
    ensures m.status == status && m.keys == keys && m.values == values
    ensures m.keySize == 4 && m.valueSize == 4 && m.bucketSize == 12
    ensures m.capacity == 16 && 3 <= m.logicalLimit
    ensures m.elementCount == 0 && KeySet(m.Buckets()) == {}
  {
    var config := EvenLayout(16);
    assert IsPowerOfTwo(2) && IsPowerOfTwo(4) && IsPowerOfTwo(8) && IsPowerOfTwo(16);
    m := new HashMap.Init(config, hash, status, keys, values);
  }

  /** Three keys 0, 1, 2 with values 0, 100, 200 in a fresh source map of 8 buckets; the
      overwrite into a fresh target map of 16 buckets succeeds, the target then holds three
      entries and reads every value back. */
  method OverwriteThree(hash: Key -> nat,
                        srcStatus: array<Status>, srcKeys: array<Key>, srcValues: array<Value>,
                        dstStatus: array<Status>, dstKeys: array<Key>, dstValues: array<Value>)
      returns (sourceCount: nat, ok: bool, targetCount: nat, found: seq<Option<Value>>)
    requires srcStatus.Length == 8 && srcKeys.Length == 8 && srcValues.Length == 8
    requires dstStatus.Length == 16 && dstKeys.Length == 16 && dstValues.Length == 16
    requires srcStatus != dstStatus
    requires srcKeys != srcValues && srcKeys != dstKeys && srcKeys != dstValues
    requires srcValues != dstKeys && srcValues != dstValues && dstKeys != dstValues
    requires forall i :: 0 <= i < 8 ==> |srcKeys[i]| == 4 && |srcValues[i]| == 4
    requires forall i :: 0 <= i < 16 ==> |dstKeys[i]| == 4 && |dstValues[i]| == 4
    modifies srcStatus, srcKeys, srcValues, dstStatus, dstKeys, dstValues
    ensures sourceCount == 3 && ok && targetCount == 3
    ensures found == [Some(I32(0)), Some(I32(100)), Some(I32(200))]
  {
    var source := CountingSource(hash, srcStatus, srcKeys, srcValues);
    var target := EmptyTarget(hash, dstStatus, dstKeys, dstValues);
    assert I32(0) != I32(1) && I32(0) != I32(2) && I32(1) != I32(2) by {
      assert I32(0)[0] == 0 && I32(1)[0] == 1 && I32(2)[0] == 2;
    }
    sourceCount := source.elementCount;
    ok := CopyThree(target, source, I32(0), I32(0), I32(1), I32(100), I32(2), I32(200));
    targetCount := target.elementCount;
    var v0 := Read(target, I32(0));
    var v1 := Read(target, I32(1));
    var v2 := Read(target, I32(2));
    found := [v0, v1, v2];
  }
}
