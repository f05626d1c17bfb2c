/**
 * The bucket array seen as values, and the bounded linear probe that `get_or_reserve_entry`,
 * `lookup` and `remove` share. A `Table` holds, per bucket, its status, its key bytes and its
 * value bytes. The functions here are the specifications the imperative operations of
 * `HashMapMem` are proved against; the lemmas state what those specifications guarantee.
 * The hash is a parameter throughout, so nothing here depends on its values.
 */
module Probing {
  import opened Wrappers

  /** The status byte of a bucket: Empty = 0, Tombstone = 1, Occupied = 2. */
  datatype Status = Empty | Tombstone | Occupied

  type Key = seq<bv8>
  type Value = seq<bv8>

  function StatusByte(s: Status): (b: bv8)
    ensures (b == 0) == (s == Empty)
  {
    match s
    case Empty => 0
    case Tombstone => 1
    case Occupied => 2
  }

  /** Reads a status byte; any other byte is the Rust code's `unreachable!()`. */
  function ParseStatus(b: bv8): (r: Option<Status>)
    ensures r.Some? <==> b <= 2
    ensures r.Some? ==> StatusByte(r.value) == b
  {
    if b == 0 then Some(Empty)
    else if b == 1 then Some(Tombstone)
    else if b == 2 then Some(Occupied)
    else None
  }

  lemma StatusByteRoundTrip(s: Status)
    ensures ParseStatus(StatusByte(s)) == Some(s)
  {
  }

  /** The cap on the number of buckets a probe visits. */
  const MAX_PROBE_DISTANCE: nat := 32

  datatype Table = Table(status: seq<Status>, keys: seq<Key>, values: seq<Value>) {
    /** One status, key and value per bucket, and at least one bucket. */
    predicate Shaped()
    {
      |status| > 0 && |keys| == |status| && |values| == |status|
    }
  }

  /** `min(capacity, MAX_PROBE_DISTANCE)`: how many buckets a probe visits at most. */
  function ProbeLimit(capacity: nat): (limit: nat)
    ensures limit <= capacity && limit <= MAX_PROBE_DISTANCE
    ensures limit == capacity || limit == MAX_PROBE_DISTANCE
  {
    if capacity < MAX_PROBE_DISTANCE then capacity else MAX_PROBE_DISTANCE
  }

  /** The bucket a probe starts from: `hash & (capacity - 1)`, that is the hash modulo the
      power-of-two capacity. */
  function Home(h: nat, capacity: nat): (i: nat)
    requires capacity > 0
    ensures i < capacity
  {
    h % capacity
  }

  /** The bucket visited at step `j` of a probe from `home`, wrapping around at the end. */
  function Slot(home: nat, j: nat, capacity: nat): (i: nat)
    requires home < capacity && j <= capacity
    ensures i < capacity
  {
    if home + j < capacity then home + j else home + j - capacity
  }

  /** One more probe step is the next bucket with wrap-around: `(index + 1) & (capacity - 1)`
      for a power-of-two capacity, that is `(index + 1) % capacity`. */
  lemma SlotStep(home: nat, j: nat, capacity: nat)
    requires home < capacity && j < capacity
    ensures Slot(home, j + 1, capacity) == (Slot(home, j, capacity) + 1) % capacity
  {
    var next := Slot(home, j, capacity) + 1;
    if next == capacity {
      assert next % capacity == 0 by { ModSelf(capacity); }
    } else {
      assert next % capacity == next by { ModBelow(next, capacity); }
    }
  }

  lemma ModSelf(c: nat)
    requires c > 0
    ensures c % c == 0
  {
  }

  lemma ModBelow(x: nat, c: nat)
    requires x < c
    ensures x % c == x
  {
  }

  /** The step at which a probe from `home` visits bucket `i`. */
  function Displacement(home: nat, i: nat, capacity: nat): (d: nat)
    requires home < capacity && i < capacity
    ensures d < capacity && Slot(home, d, capacity) == i
    ensures forall j :: 0 <= j < capacity && Slot(home, j, capacity) == i ==> j == d
  {
    if home <= i then i - home else i + capacity - home
  }

  // ---------------------------------------------------------------------------------------
  // Lookup (and the probe that remove shares with it)

  /** The probe of `lookup` from step `j` on: an Empty bucket ends it unsuccessfully, an
      Occupied bucket holding `key` ends it successfully, anything else is passed over.
      Only statuses and keys take part, never the value bytes. */
  function FindFrom(status: seq<Status>, keys: seq<Key>, home: nat, key: Key, j: nat): (r: Option<nat>)
    requires |keys| == |status| && home < |status| && j <= ProbeLimit(|status|)
    ensures r.Some? ==> r.value < |status| && status[r.value] == Occupied && keys[r.value] == key
    decreases ProbeLimit(|status|) - j
  {
    if j == ProbeLimit(|status|) then None
    else
      var i := Slot(home, j, |status|);
      match status[i]
      case Empty => None
      case Occupied => if keys[i] == key then Some(i) else FindFrom(status, keys, home, key, j + 1)
      case Tombstone => FindFrom(status, keys, home, key, j + 1)
  }

  /** The bucket `lookup` returns for `key`, if any. */
  function Find(t: Table, hash: Key -> nat, key: Key): Option<nat>
    requires t.Shaped()
  {
    FindFrom(t.status, t.keys, Home(hash(key), |t.status|), key, 0)
  }

  /** The value bytes `lookup` points at for `key`, if any. */
  function Get(t: Table, hash: Key -> nat, key: Key): Option<Value>
    requires t.Shaped()
  {
    match Find(t, hash, key)
    case Some(i) => Some(t.values[i])
    case None => None
  }

  // ---------------------------------------------------------------------------------------
  // Get-or-reserve

  /** What `get_or_reserve_entry` does: hand back the bucket already holding the key, claim
      a fresh bucket for it, or report that the probe window is full. */
  datatype Reservation = Existing(index: nat) | Fresh(index: nat) | Full

  /** The probe of `get_or_reserve_entry` from step `j` on, having seen `firstTombstone`. */
  function ReserveFrom(status: seq<Status>, keys: seq<Key>, home: nat, key: Key, j: nat, firstTombstone: Option<nat>): (r: Reservation)
    requires |keys| == |status| && home < |status| && j <= ProbeLimit(|status|)
    requires firstTombstone.Some? ==> firstTombstone.value < |status|
    ensures !r.Full? ==> r.index < |status|
    decreases ProbeLimit(|status|) - j
  {
    if j == ProbeLimit(|status|) then
      match firstTombstone
      case Some(x) => Fresh(x)
      case None => Full
    else
      var i := Slot(home, j, |status|);
      match status[i]
      case Empty => Fresh(if firstTombstone.Some? then firstTombstone.value else i)
      case Occupied =>
        if keys[i] == key then Existing(i) else ReserveFrom(status, keys, home, key, j + 1, firstTombstone)
      case Tombstone =>
        ReserveFrom(status, keys, home, key, j + 1, if firstTombstone.None? then Some(i) else firstTombstone)
  }

  function Reserve(t: Table, hash: Key -> nat, key: Key): (r: Reservation)
    requires t.Shaped()
    ensures !r.Full? ==> r.index < |t.status|
  {
    ReserveFrom(t.status, t.keys, Home(hash(key), |t.status|), key, 0, None)
  }

  /** The returned value location: null when the window is full. */
  function ReservedIndex(r: Reservation): Option<nat>
  {
    if r.Full? then None else Some(r.index)
  }

  /** Marks bucket `i` Occupied and copies `key` into it; the value bytes stay as they were. */
  function Occupy(t: Table, i: nat, key: Key): Table
    requires i < |t.status| && i < |t.keys|
  {
    t.(status := t.status[i := Occupied], keys := t.keys[i := key])
  }

  /** The table after `get_or_reserve_entry`: only a fresh reservation changes it. */
  function AfterReserve(t: Table, r: Reservation, key: Key): Table
    requires t.Shaped() && (!r.Full? ==> r.index < |t.status|)
  {
    if r.Fresh? then Occupy(t, r.index, key) else t
  }

  // ---------------------------------------------------------------------------------------
  // Remove and value writes

  /** Flips bucket `i` to Tombstone; its key and value bytes stay as they were. */
  function Vacate(t: Table, i: nat): Table
    requires i < |t.status|
  {
    t.(status := t.status[i := Tombstone])
  }

  /** The table after `remove`: the bucket `lookup` would find becomes a tombstone. */
  function AfterRemove(t: Table, hash: Key -> nat, key: Key): Table
    requires t.Shaped()
  {
    match Find(t, hash, key)
    case Some(i) => Vacate(t, i)
    case None => t
  }

  /** The caller's write of `v` through the value location of bucket `i`. */
  function StoreValue(t: Table, i: nat, v: Value): Table
    requires i < |t.values|
  {
    t.(values := t.values[i := v])
  }

  // ---------------------------------------------------------------------------------------
  // The invariant of an initialised map

  /** Indices of the Occupied buckets; `element_count` is meant to be their number. */
  function OccupiedIndices(status: seq<Status>): set<nat>
  {
    set i: nat | i < |status| && status[i] == Occupied
  }

  function OccupiedCount(status: seq<Status>): nat
  {
    |OccupiedIndices(status)|
  }

  /** The keys held in Occupied buckets. */
  function KeySet(t: Table): set<Key>
    requires |t.keys| == |t.status|
  {
    set i | 0 <= i < |t.status| && t.status[i] == Occupied :: t.keys[i]
  }

  /** The Occupied bucket `i` lies inside its key's probe window, and no Empty bucket lies
      between the start of that window and `i`. */
  ghost predicate ChainIntact(t: Table, hash: Key -> nat, i: nat)
    requires t.Shaped() && i < |t.status|
  {
    var n := |t.status|;
    var home := Home(hash(t.keys[i]), n);
    && Displacement(home, i, n) < ProbeLimit(n)
    && forall j :: 0 <= j < Displacement(home, i, n) ==> t.status[Slot(home, j, n)] != Empty
  }

  /** No key is Occupied in two buckets. */
  ghost predicate UniqueKeys(t: Table)
    requires t.Shaped()
  {
    forall i, k :: 0 <= i < |t.status| && 0 <= k < |t.status| && t.status[i] == Occupied && t.status[k] == Occupied && t.keys[i] == t.keys[k] ==> i == k
  }

  ghost predicate WellFormed(t: Table, hash: Key -> nat)
  {
    && t.Shaped()
    && (forall i :: 0 <= i < |t.status| && t.status[i] == Occupied ==> ChainIntact(t, hash, i))
    && UniqueKeys(t)
  }

  /** The buckets right after `init`: every status Empty, key and value bytes whatever the
      buffer held. */
  function Cleared(t: Table): Table
  {
    t.(status := seq(|t.status|, _ => Empty))
  }

  lemma ClearedIsWellFormed(t: Table, hash: Key -> nat)
    requires t.Shaped()
    ensures WellFormed(Cleared(t), hash)
    ensures OccupiedCount(Cleared(t).status) == 0 && KeySet(Cleared(t)) == {}
  {
    assert OccupiedIndices(Cleared(t).status) == {};
  }
}
