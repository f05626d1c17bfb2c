/**
 * What the probe specifications of `Probing` guarantee: lookup finds exactly the keys held in
 * Occupied buckets, get-or-reserve and remove keep the map's invariant, the element count and
 * every other key's entry, and `get_or_reserve_entry` has three outcomes: the bucket already
 * holding the key, a freshly claimed bucket, or null when the probe window is full.
 */
module ProbingProperties {
  import opened Wrappers
  import opened Probing

  // ---------------------------------------------------------------------------------------
  // Counting Occupied buckets

  lemma {:induction false} BoundedSetSize(s: set<nat>, n: nat)
    requires forall i :: i in s ==> i < n
    ensures |s| <= n
    decreases n
  {
    if n == 0 {
      assert s == {};
    } else {
      BoundedSetSize(s - {n - 1}, n - 1);
    }
  }

  /** There are never more Occupied buckets than buckets, and fewer when one is not Occupied. */
  lemma OccupiedCountBound(status: seq<Status>)
    ensures OccupiedCount(status) <= |status|
    ensures (exists i :: 0 <= i < |status| && status[i] != Occupied) ==> OccupiedCount(status) < |status|
  {
    BoundedSetSize(OccupiedIndices(status), |status|);
    if i :| 0 <= i < |status| && status[i] != Occupied {
      BoundedSetSize(OccupiedIndices(status) + {i}, |status|);
    }
  }

  /** Writing one status changes the set of Occupied buckets by that bucket alone. */
  lemma OccupiedAfterWrite(status: seq<Status>, x: nat, s: Status)
    requires x < |status|
    ensures OccupiedIndices(status[x := s]) ==
      if s == Occupied then OccupiedIndices(status) + {x} else OccupiedIndices(status) - {x}
    ensures OccupiedCount(status[x := s]) ==
      OccupiedCount(status) - (if status[x] == Occupied then 1 else 0) + (if s == Occupied then 1 else 0)
  {
    var before, after := OccupiedIndices(status), OccupiedIndices(status[x := s]);
    if s == Occupied {
      assert after == before + {x};
      if status[x] == Occupied {
        assert after == before;
      } else {
        assert x !in before && |after| == |before| + 1;
      }
    } else {
      assert after == before - {x};
      if status[x] == Occupied {
        assert x in before && |after| == |before| - 1;
      } else {
        assert after == before;
      }
    }
  }

  // ---------------------------------------------------------------------------------------
  // Lookup

  lemma {:induction false} FindFromReaches(t: Table, hash: Key -> nat, i: nat, j: nat)
    requires WellFormed(t, hash) && i < |t.status| && t.status[i] == Occupied
    requires j <= Displacement(Home(hash(t.keys[i]), |t.status|), i, |t.status|)
    ensures FindFrom(t.status, t.keys, Home(hash(t.keys[i]), |t.status|), t.keys[i], j) == Some(i)
    decreases Displacement(Home(hash(t.keys[i]), |t.status|), i, |t.status|) - j
  {
    var n, key := |t.status|, t.keys[i];
    var home := Home(hash(key), n);
    var d := Displacement(home, i, n);
    assert ChainIntact(t, hash, i);
    if j < d {
      var s := Slot(home, j, n);
      assert s != i;
      assert t.status[s] != Empty;
      assert t.status[s] == Occupied ==> t.keys[s] != key;
      FindFromReaches(t, hash, i, j + 1);
    }
  }

  /** On a well-formed table, lookup finds a key exactly when some Occupied bucket holds it,
      and then returns that bucket. */
  lemma FindCorrect(t: Table, hash: Key -> nat, key: Key)
    requires WellFormed(t, hash)
    ensures Find(t, hash, key).Some? <==> key in KeySet(t)
    ensures forall i :: 0 <= i < |t.status| ==>
      (Find(t, hash, key) == Some(i) <==> t.status[i] == Occupied && t.keys[i] == key)
  {
    if key in KeySet(t) {
      var i :| 0 <= i < |t.status| && t.status[i] == Occupied && t.keys[i] == key;
      FindFromReaches(t, hash, i, 0);
    }
    var r := Find(t, hash, key);
    if r.Some? {
      assert t.keys[r.value] in KeySet(t);
    }
  }

  /** Lookup and the value it points at depend on the statuses and keys only, so writing value
      bytes never changes which bucket a key is found in. */
  lemma GetAfterStore(t: Table, hash: Key -> nat, i: nat, v: Value, key: Key)
    requires t.Shaped() && i < |t.status|
    ensures Find(StoreValue(t, i, v), hash, key) == Find(t, hash, key)
    ensures Get(StoreValue(t, i, v), hash, key) ==
      match Find(t, hash, key)
      case Some(x) => Some(if x == i then v else t.values[x])
      case None => None
  {
  }

  // ---------------------------------------------------------------------------------------
  // Get-or-reserve: its three outcomes

  /** Step `j` of a probe for `key` went on past its bucket: a tombstone, or another key. */
  ghost predicate PassedOver(status: seq<Status>, keys: seq<Key>, home: nat, key: Key, j: nat)
    requires |keys| == |status| && home < |status| && j < |status|
  {
    var s := Slot(home, j, |status|);
    status[s] == Tombstone || (status[s] == Occupied && keys[s] != key)
  }

  /** Bucket `i` is the first bucket of the probe window from `home` that is not Occupied. */
  ghost predicate FirstVacant(status: seq<Status>, home: nat, i: nat)
    requires home < |status|
  {
    && i < |status|
    && status[i] != Occupied
    && Displacement(home, i, |status|) < ProbeLimit(|status|)
    && forall j :: 0 <= j < Displacement(home, i, |status|) ==> status[Slot(home, j, |status|)] == Occupied
  }

  /** Every bucket of the probe window from `home` is Occupied by a key other than `key`. */
  ghost predicate WindowFull(status: seq<Status>, keys: seq<Key>, home: nat, key: Key)
    requires |keys| == |status| && home < |status|
  {
    forall j :: 0 <= j < ProbeLimit(|status|) ==>
      status[Slot(home, j, |status|)] == Occupied && keys[Slot(home, j, |status|)] != key
  }

  lemma {:induction false} ReserveFromOutcomes(status: seq<Status>, keys: seq<Key>, home: nat, key: Key, j: nat, ft: Option<nat>)
    requires |keys| == |status| && home < |status| && j <= ProbeLimit(|status|)
    requires forall j' :: 0 <= j' < j ==> PassedOver(status, keys, home, key, j')
    requires ft.None? ==> forall j' :: 0 <= j' < j ==> status[Slot(home, j', |status|)] == Occupied
    requires ft.Some? ==> FirstVacant(status, home, ft.value) && Displacement(home, ft.value, |status|) < j
    ensures var r := ReserveFrom(status, keys, home, key, j, ft);
      var f := FindFrom(status, keys, home, key, j);
      && (f.Some? ==> r == Existing(f.value))
      && (r.Existing? ==> f.Some?)
      && (r.Fresh? ==> FirstVacant(status, home, r.index))
      && (r.Full? <==> WindowFull(status, keys, home, key))
    decreases ProbeLimit(|status|) - j
  {
    var n := |status|;
    if j == ProbeLimit(n) {
      if ft.Some? {
        var d := Displacement(home, ft.value, n);
        assert status[Slot(home, d, n)] != Occupied;
        assert !WindowFull(status, keys, home, key) by {
          assert d < ProbeLimit(n);
        }
      } else {
        forall j' | 0 <= j' < ProbeLimit(n)
          ensures status[Slot(home, j', n)] == Occupied && keys[Slot(home, j', n)] != key
        {
          assert PassedOver(status, keys, home, key, j');
        }
      }
    } else {
      var i := Slot(home, j, n);
      assert Displacement(home, i, n) == j;
      match status[i]
      case Empty =>
      case Occupied =>
        if keys[i] != key {
          ReserveFromOutcomes(status, keys, home, key, j + 1, ft);
        }
      case Tombstone =>
        ReserveFromOutcomes(status, keys, home, key, j + 1, if ft.None? then Some(i) else ft);
    }
  }

  /** `get_or_reserve_entry` returns the bucket lookup would find whenever there is one;
      otherwise it claims the first bucket of the probe window that is not Occupied (the first
      tombstone, or the Empty bucket that ended the probe); and it reports a full window only
      when every bucket of the window holds another key. */
  lemma ReserveOutcomes(t: Table, hash: Key -> nat, key: Key)
    requires t.Shaped()
    ensures var home := Home(hash(key), |t.status|);
      var r := Reserve(t, hash, key);
      && (r.Existing? <==> Find(t, hash, key).Some?)
      && (Find(t, hash, key).Some? ==> r.index == Find(t, hash, key).value)
      && (r.Fresh? ==> FirstVacant(t.status, home, r.index))
      && (r.Full? <==> WindowFull(t.status, t.keys, home, key))
  {
    ReserveFromOutcomes(t.status, t.keys, Home(hash(key), |t.status|), key, 0, None);
  }

  // ---------------------------------------------------------------------------------------
  // Get-or-reserve keeps the invariant, the count and the other keys

  /** A table whose statuses only went from not-Empty to not-Empty (or gained Occupied) and
      whose key at `i` is unchanged keeps `i`'s probe chain intact. */
  lemma ChainIntactKept(t: Table, u: Table, hash: Key -> nat, i: nat)
    requires t.Shaped() && u.Shaped() && |u.status| == |t.status| && i < |t.status|
    requires u.keys[i] == t.keys[i] && ChainIntact(t, hash, i)
    requires forall s :: 0 <= s < |t.status| && t.status[s] != Empty ==> u.status[s] != Empty
    ensures ChainIntact(u, hash, i)
  {
    var n := |t.status|;
    var home := Home(hash(t.keys[i]), n);
    forall j | 0 <= j < Displacement(home, i, n)
      ensures u.status[Slot(home, j, n)] != Empty
    {
      assert t.status[Slot(home, j, n)] != Empty;
    }
  }

  /** The key `get_or_reserve_entry` did not find is in no Occupied bucket. */
  lemma NotFoundMeansAbsent(t: Table, hash: Key -> nat, key: Key)
    requires WellFormed(t, hash) && Find(t, hash, key).None?
    ensures forall i :: 0 <= i < |t.status| && t.status[i] == Occupied ==> t.keys[i] != key
  {
    FindCorrect(t, hash, key);
  }

  /** `get_or_reserve_entry` keeps the table well formed, adds `key` to the keys held, raises
      the count by one exactly when it claims a fresh bucket, and leaves value bytes alone. */
  lemma ReservePreserves(t: Table, hash: Key -> nat, key: Key)
    requires WellFormed(t, hash)
    ensures var r := Reserve(t, hash, key);
      var u := AfterReserve(t, r, key);
      && WellFormed(u, hash)
      && (r.Existing? <==> key in KeySet(t))
      && KeySet(u) == (if r.Full? then KeySet(t) else KeySet(t) + {key})
      && OccupiedCount(u.status) == OccupiedCount(t.status) + (if r.Fresh? then 1 else 0)
      && u.values == t.values
  {
    var r := Reserve(t, hash, key);
    ReserveOutcomes(t, hash, key);
    FindCorrect(t, hash, key);
    if r.Fresh? {
      NotFoundMeansAbsent(t, hash, key);
      OccupyPreserves(t, hash, key, r.index);
      OccupiedAfterWrite(t.status, r.index, Occupied);
    } else if r.Existing? {
      assert t.keys[r.index] in KeySet(t);
    }
  }

  /** Claiming the first vacant bucket of an absent key's probe window keeps the table well
      formed and adds exactly that key. */
  lemma OccupyPreserves(t: Table, hash: Key -> nat, key: Key, x: nat)
    requires WellFormed(t, hash) && x < |t.status|
    requires FirstVacant(t.status, Home(hash(key), |t.status|), x)
    requires forall i :: 0 <= i < |t.status| && t.status[i] == Occupied ==> t.keys[i] != key
    ensures WellFormed(Occupy(t, x, key), hash)
    ensures KeySet(Occupy(t, x, key)) == KeySet(t) + {key}
  {
    var n := |t.status|;
    var u := Occupy(t, x, key);
    var home := Home(hash(key), n);
    forall i | 0 <= i < n && u.status[i] == Occupied
      ensures ChainIntact(u, hash, i)
    {
      if i == x {
        forall j | 0 <= j < Displacement(home, x, n)
          ensures u.status[Slot(home, j, n)] != Empty
        {
          assert t.status[Slot(home, j, n)] == Occupied;
        }
      } else {
        assert t.status[i] == Occupied;
        ChainIntactKept(t, u, hash, i);
      }
    }
    forall i, k | 0 <= i < n && 0 <= k < n && u.status[i] == Occupied && u.status[k] == Occupied && u.keys[i] == u.keys[k]
      ensures i == k
    {
      if i != x && k != x {
        assert t.status[i] == Occupied && t.status[k] == Occupied;
      }
    }
    forall k | k in KeySet(u) ensures k in KeySet(t) + {key} {
      var i :| 0 <= i < n && u.status[i] == Occupied && u.keys[i] == k;
      if i != x {
        assert t.status[i] == Occupied && t.keys[i] == k;
      }
    }
    forall k | k in KeySet(t) ensures k in KeySet(u) {
      var i :| 0 <= i < n && t.status[i] == Occupied && t.keys[i] == k;
      assert u.status[i] == Occupied && u.keys[i] == k;
    }
    assert u.status[x] == Occupied && u.keys[x] == key;
  }

  /** Right after `get_or_reserve_entry` hands back a bucket, lookup finds the key there, and a
      second `get_or_reserve_entry` of the same key hands back the same bucket and changes
      nothing. */
  lemma ReserveThenFind(t: Table, hash: Key -> nat, key: Key)
    requires WellFormed(t, hash)
    requires !Reserve(t, hash, key).Full?
    ensures var r := Reserve(t, hash, key);
      var u := AfterReserve(t, r, key);
      && Find(u, hash, key) == Some(r.index)
      && Reserve(u, hash, key) == Existing(r.index)
      && AfterReserve(u, Reserve(u, hash, key), key) == u
  {
    var r := Reserve(t, hash, key);
    var u := AfterReserve(t, r, key);
    ReservePreserves(t, hash, key);
    ReserveOutcomes(t, hash, key);
    assert u.status[r.index] == Occupied && u.keys[r.index] == key;
    FindCorrect(u, hash, key);
    ReserveOutcomes(u, hash, key);
  }

  /** `get_or_reserve_entry` of one key does not change where any other key is found. */
  lemma ReserveKeepsOthers(t: Table, hash: Key -> nat, key: Key, other: Key)
    requires WellFormed(t, hash) && other != key
    ensures Find(AfterReserve(t, Reserve(t, hash, key), key), hash, other) == Find(t, hash, other)
  {
    var r := Reserve(t, hash, key);
    var u := AfterReserve(t, r, key);
    ReservePreserves(t, hash, key);
    FindCorrect(t, hash, other);
    FindCorrect(u, hash, other);
    var n := |t.status|;
    if r.Fresh? {
      assert forall i :: 0 <= i < n ==>
        ((u.status[i] == Occupied && u.keys[i] == other) <==> (t.status[i] == Occupied && t.keys[i] == other));
    }
    if Find(t, hash, other).Some? {
      var i := Find(t, hash, other).value;
      assert u.status[i] == Occupied && u.keys[i] == other;
    }
  }

  /** The round trip of the map: reserve `key`, write `v` through the returned location, and
      a lookup of `key` reads `v` back, while every other key reads what it read before. */
  lemma InsertThenGet(t: Table, hash: Key -> nat, key: Key, v: Value)
    requires WellFormed(t, hash)
    requires !Reserve(t, hash, key).Full?
    ensures var r := Reserve(t, hash, key);
      var u := StoreValue(AfterReserve(t, r, key), r.index, v);
      && WellFormed(u, hash)
      && Get(u, hash, key) == Some(v)
      && forall k :: k != key ==> Get(u, hash, k) == Get(t, hash, k)
  {
    var r := Reserve(t, hash, key);
    var w := AfterReserve(t, r, key);
    var u := StoreValue(w, r.index, v);
    ReservePreserves(t, hash, key);
    ReserveThenFind(t, hash, key);
    GetAfterStore(w, hash, r.index, v, key);
    assert WellFormed(u, hash) by {
      assert u.status == w.status && u.keys == w.keys;
      forall i | 0 <= i < |u.status| && u.status[i] == Occupied
        ensures ChainIntact(u, hash, i)
      {
        ChainIntactKept(w, u, hash, i);
      }
    }
    forall k | k != key
      ensures Get(u, hash, k) == Get(t, hash, k)
    {
      ReserveKeepsOthers(t, hash, key, k);
      GetAfterStore(w, hash, r.index, v, k);
      match Find(w, hash, k)
      case Some(x) =>
        assert x != r.index by {
          FindCorrect(w, hash, k);
          assert w.keys[r.index] == key;
        }
      case None =>
    }
  }

  // ---------------------------------------------------------------------------------------
  // Remove

  /** `remove` keeps the table well formed, takes `key` out of the keys held, lowers the count
      by one exactly when the key was there, leaves every key and value byte in place, and
      leaves every other key readable as before. */
  lemma RemoveCorrect(t: Table, hash: Key -> nat, key: Key)
    requires WellFormed(t, hash)
    ensures var u := AfterRemove(t, hash, key);
      && WellFormed(u, hash)
      && (Find(t, hash, key).Some? <==> key in KeySet(t))
      && KeySet(u) == KeySet(t) - {key}
      && OccupiedCount(u.status) == OccupiedCount(t.status) - (if key in KeySet(t) then 1 else 0)
      && u.keys == t.keys && u.values == t.values
      && Get(u, hash, key) == None
      && forall k :: k != key ==> Get(u, hash, k) == Get(t, hash, k)
  {
    FindCorrect(t, hash, key);
    match Find(t, hash, key)
    case None =>
      NotFoundMeansAbsent(t, hash, key);
    case Some(x) =>
      VacatePreserves(t, hash, x);
      VacateKeepsOthers(t, hash, x);
      OccupiedAfterWrite(t.status, x, Tombstone);
  }

  /** Turning an Occupied bucket into a tombstone keeps the table well formed and drops
      exactly that bucket's key. */
  lemma VacatePreserves(t: Table, hash: Key -> nat, x: nat)
    requires WellFormed(t, hash) && x < |t.status| && t.status[x] == Occupied
    ensures WellFormed(Vacate(t, x), hash)
    ensures KeySet(Vacate(t, x)) == KeySet(t) - {t.keys[x]}
  {
    var n, u, key := |t.status|, Vacate(t, x), t.keys[x];
    forall i | 0 <= i < n && u.status[i] == Occupied
      ensures ChainIntact(u, hash, i)
    {
      ChainIntactKept(t, u, hash, i);
    }
    forall i, k | 0 <= i < n && 0 <= k < n && u.status[i] == Occupied && u.status[k] == Occupied && u.keys[i] == u.keys[k]
      ensures i == k
    {
      assert t.status[i] == Occupied && t.status[k] == Occupied;
    }
    forall k | k in KeySet(u) ensures k in KeySet(t) - {key} {
      var i :| 0 <= i < n && u.status[i] == Occupied && u.keys[i] == k;
      assert t.status[i] == Occupied;
    }
    forall k | k in KeySet(t) - {key} ensures k in KeySet(u) {
      var i :| 0 <= i < n && t.status[i] == Occupied && t.keys[i] == k;
      assert u.status[i] == Occupied;
    }
  }

  /** After the tombstone, the key it held is not found, and every other key is found where
      it was found before. */
  lemma VacateKeepsOthers(t: Table, hash: Key -> nat, x: nat)
    requires WellFormed(t, hash) && x < |t.status| && t.status[x] == Occupied
    ensures Get(Vacate(t, x), hash, t.keys[x]) == None
    ensures forall k :: k != t.keys[x] ==> Get(Vacate(t, x), hash, k) == Get(t, hash, k)
  {
    var u := Vacate(t, x);
    VacatePreserves(t, hash, x);
    FindCorrect(u, hash, t.keys[x]);
    forall k | k != t.keys[x]
      ensures Get(u, hash, k) == Get(t, hash, k)
    {
      FindCorrect(t, hash, k);
      FindCorrect(u, hash, k);
      if Find(t, hash, k).Some? {
        var i := Find(t, hash, k).value;
        assert u.status[i] == Occupied;
      }
    }
  }

  /** After removing a present key, reserving it again always claims a bucket: the tombstone
      `remove` left lies inside the key's probe window. */
  lemma ReinsertAfterRemove(t: Table, hash: Key -> nat, key: Key)
    requires WellFormed(t, hash) && key in KeySet(t)
    ensures Reserve(AfterRemove(t, hash, key), hash, key).Fresh?
  {
    FindCorrect(t, hash, key);
    var x := Find(t, hash, key).value;
    var u := AfterRemove(t, hash, key);
    var n := |t.status|;
    var home := Home(hash(key), n);
    RemoveCorrect(t, hash, key);
    FindCorrect(u, hash, key);
    ReserveOutcomes(u, hash, key);
    assert ChainIntact(t, hash, x);
    var d := Displacement(home, x, n);
    assert u.status[Slot(home, d, n)] == Tombstone;
  }

  // ---------------------------------------------------------------------------------------
  // When get-or-reserve cannot fail, and when it must

  function WindowSlots(home: nat, m: nat, n: nat): set<nat>
    requires home < n && m <= n
  {
    set j: nat | j < m :: Slot(home, j, n)
  }

  lemma {:induction false} WindowSlotsSize(home: nat, m: nat, n: nat)
    requires home < n && m <= n
    ensures |WindowSlots(home, m, n)| == m
  {
    if m == 0 {
      assert WindowSlots(home, m, n) == {};
    } else {
      WindowSlotsSize(home, m - 1, n);
      var last := Slot(home, m - 1, n);
      assert WindowSlots(home, m, n) == WindowSlots(home, m - 1, n) + {last};
      assert Displacement(home, last, n) == m - 1;
      assert last !in WindowSlots(home, m - 1, n);
    }
  }

  /** `get_or_reserve_entry` cannot report a full window while fewer buckets are Occupied than
      a probe visits. */
  lemma RoomMeansNotFull(t: Table, hash: Key -> nat, key: Key)
    requires t.Shaped()
    requires OccupiedCount(t.status) < ProbeLimit(|t.status|)
    ensures !Reserve(t, hash, key).Full?
  {
    var n := |t.status|;
    var home := Home(hash(key), n);
    ReserveOutcomes(t, hash, key);
    var window := WindowSlots(home, ProbeLimit(n), n);
    WindowSlotsSize(home, ProbeLimit(n), n);
    SmallerSetMisses(OccupiedIndices(t.status), window);
    var s :| s in window && s !in OccupiedIndices(t.status);
    var j: nat :| j < ProbeLimit(n) && Slot(home, j, n) == s;
    assert t.status[s] != Occupied;
  }

  lemma {:induction false} SmallerSetMisses(a: set<nat>, b: set<nat>)
    requires |a| < |b|
    ensures exists x :: x in b && x !in a
  {
    if b <= a {
      SubsetSize(b, a);
    }
  }

  lemma {:induction false} SubsetSize(a: set<nat>, b: set<nat>)
    requires a <= b
    ensures |a| <= |b|
  {
    assert b == a + (b - a);
  }

  /** With a single bucket the probe window is that bucket, so once it holds a key every other
      key is refused. */
  lemma SingleBucketHoldsOneKey(t: Table, hash: Key -> nat, held: Key, key: Key)
    requires WellFormed(t, hash) && |t.status| == 1
    requires held in KeySet(t) && key != held
    ensures Reserve(t, hash, key).Full?
  {
    ReserveOutcomes(t, hash, key);
    assert t.status[0] == Occupied && t.keys[0] == held;
  }

  /** With unique keys, the map holds as many keys as it has Occupied buckets, so
      `element_count` is also the number of keys the map holds. */
  lemma KeySetSize(t: Table)
    requires t.Shaped() && UniqueKeys(t)
    ensures |KeySet(t)| == OccupiedCount(t.status)
  {
    ImageSize(OccupiedIndices(t.status), t.status, t.keys);
    assert KeySet(t) == (set i | i in OccupiedIndices(t.status) :: t.keys[i]);
  }

  /** Keys read from a set of Occupied buckets that hold pairwise different keys are as many
      as the buckets. */
  lemma {:induction false} ImageSize(s: set<nat>, status: seq<Status>, keys: seq<Key>)
    requires |keys| == |status|
    requires forall i :: i in s ==> i < |status| && status[i] == Occupied
    requires forall i, k :: i in s && k in s && keys[i] == keys[k] ==> i == k
    ensures |(set i | i in s :: keys[i])| == |s|
    decreases |s|
  {
    if s != {} {
      var x :| x in s;
      var rest := s - {x};
      ImageSize(rest, status, keys);
      assert (set i | i in s :: keys[i]) == (set i | i in rest :: keys[i]) + {keys[x]};
      assert keys[x] !in (set i | i in rest :: keys[i]);
    }
  }
}
