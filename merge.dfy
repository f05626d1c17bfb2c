/**
 * What `overwrite` computes, as a function of the two bucket tables: the Occupied source
 * buckets, in index order, are each reserved in the target and their value bytes copied into
 * the reserved bucket; the copy stops at the first key the target refuses. The lemmas say which
 * keys the target then holds, what they read, and when no key is refused.
 */
module Merge {
  import opened Wrappers
  import opened Probing
  import opened ProbingProperties
  import opened Cursor

  /** Where a copy ended: the target table, whether every source entry found a bucket, and
      the source index the copy stopped at (the number of source buckets when it did not). */
  datatype Copy = Copy(table: Table, ok: bool, stop: nat)

  /** The copy loop of `overwrite` from source bucket `i` on. */
  function CopyFrom(t: Table, hash: Key -> nat, src: Table, i: nat): (c: Copy)
    requires t.Shaped() && src.Shaped() && i <= |src.status|
    ensures c.table.Shaped() && |c.table.status| == |t.status|
    ensures i <= c.stop <= |src.status|
    decreases |src.status| - i
  {
    if i == |src.status| then Copy(t, true, i)
    else if src.status[i] != Occupied then CopyFrom(t, hash, src, i + 1)
    else
      var key := src.keys[i];
      var r := Reserve(t, hash, key);
      if r.Full? then Copy(t, false, i)
      else CopyFrom(StoreValue(AfterReserve(t, r, key), r.index, src.values[i]), hash, src, i + 1)
  }

  /** The keys of the Occupied source buckets with index in `[i, j)`. */
  function SourceKeys(src: Table, i: nat, j: nat): set<Key>
    requires |src.keys| == |src.status| && j <= |src.status|
  {
    set k | i <= k < j && src.status[k] == Occupied :: src.keys[k]
  }

  lemma SourceKeysStep(src: Table, i: nat, j: nat)
    requires |src.keys| == |src.status| && i < j <= |src.status|
    ensures SourceKeys(src, i, j) ==
      (if src.status[i] == Occupied then {src.keys[i]} else {}) + SourceKeys(src, i + 1, j)
  {
    var lhs := SourceKeys(src, i, j);
    var rhs := (if src.status[i] == Occupied then {src.keys[i]} else {}) + SourceKeys(src, i + 1, j);
    forall k | k in lhs ensures k in rhs {
      var x :| i <= x < j && src.status[x] == Occupied && src.keys[x] == k;
      if x > i {
        assert k in SourceKeys(src, i + 1, j);
      }
    }
    forall k | k in rhs ensures k in lhs {
      if k in SourceKeys(src, i + 1, j) {
        var x :| i + 1 <= x < j && src.status[x] == Occupied && src.keys[x] == k;
        assert src.keys[x] in lhs;
      } else {
        assert src.keys[i] in lhs;
      }
    }
  }

  /** With unique source keys, the key of source bucket `i` is held by no later source bucket. */
  lemma LaterSourceKeysDiffer(src: Table, i: nat, j: nat)
    requires src.Shaped() && UniqueKeys(src) && i < j <= |src.status| && src.status[i] == Occupied
    ensures src.keys[i] !in SourceKeys(src, i + 1, j)
  {
    forall x | i + 1 <= x < j && src.status[x] == Occupied
      ensures src.keys[x] != src.keys[i]
    {
    }
  }

  /** Writing value bytes leaves the keys held and the invariant as they were. */
  lemma StoreKeepsKeys(t: Table, hash: Key -> nat, i: nat, v: Value)
    requires WellFormed(t, hash) && i < |t.status|
    ensures WellFormed(StoreValue(t, i, v), hash)
    ensures KeySet(StoreValue(t, i, v)) == KeySet(t)
    ensures OccupiedCount(StoreValue(t, i, v).status) == OccupiedCount(t.status)
  {
    var u := StoreValue(t, i, v);
    forall x | 0 <= x < |u.status| && u.status[x] == Occupied
      ensures ChainIntact(u, hash, x)
    {
      ChainIntactKept(t, u, hash, x);
    }
  }

  /** Every key of source buckets `i` to `j` reads that bucket's value in `u`. */
  ghost predicate ReadsSource(u: Table, hash: Key -> nat, src: Table, i: nat, j: nat)
    requires u.Shaped() && src.Shaped() && j <= |src.status|
  {
    forall x :: i <= x < j && src.status[x] == Occupied ==> Get(u, hash, src.keys[x]) == Some(src.values[x])
  }

  /** Every key outside `copied` reads in `u` what it read in `t`. */
  ghost predicate ReadsAsBefore(u: Table, t: Table, hash: Key -> nat, copied: set<Key>)
    requires u.Shaped() && t.Shaped()
  {
    forall k :: k !in copied ==> Get(u, hash, k) == Get(t, hash, k)
  }

  /** What a copy from source bucket `i` on that ended in `c` guarantees: the target stays
      well formed. The keys it then holds are its own plus the keys of the source buckets
      copied before the stop; each of those reads its source value, and every other key reads
      what it read before. The count grows by the copied keys that were new to the target. A
      copy that stops early stops at an Occupied source bucket whose key the target's probe
      window refuses. */
  ghost predicate CopyFacts(t: Table, hash: Key -> nat, src: Table, i: nat, c: Copy)
    requires t.Shaped() && src.Shaped() && c.table.Shaped() && i <= c.stop <= |src.status|
  {
    && WellFormed(c.table, hash)
    && (c.ok <==> c.stop == |src.status|)
    && KeySet(c.table) == KeySet(t) + SourceKeys(src, i, c.stop)
    && OccupiedCount(c.table.status) == OccupiedCount(t.status) + |SourceKeys(src, i, c.stop) - KeySet(t)|
    && ReadsSource(c.table, hash, src, i, c.stop)
    && ReadsAsBefore(c.table, t, hash, SourceKeys(src, i, c.stop))
    && (!c.ok ==> src.status[c.stop] == Occupied && Reserve(c.table, hash, src.keys[c.stop]).Full?)
  }

  ghost predicate CopySound(t: Table, hash: Key -> nat, src: Table, i: nat)
    requires t.Shaped() && src.Shaped() && i <= |src.status|
  {
    CopyFacts(t, hash, src, i, CopyFrom(t, hash, src, i))
  }

  /** Reserving `key` and writing `v` through the reserved bucket: the table stays well
      formed, gains `key` (and one to its count when `key` was new), reads `v` for `key` and
      reads as before for every other key. */
  lemma CopyOne(t: Table, hash: Key -> nat, key: Key, v: Value)
    requires WellFormed(t, hash) && !Reserve(t, hash, key).Full?
    ensures var r := Reserve(t, hash, key);
      var u := StoreValue(AfterReserve(t, r, key), r.index, v);
      && WellFormed(u, hash)
      && KeySet(u) == KeySet(t) + {key}
      && OccupiedCount(u.status) == OccupiedCount(t.status) + (if key in KeySet(t) then 0 else 1)
      && Get(u, hash, key) == Some(v)
      && (forall k :: k != key ==> Get(u, hash, k) == Get(t, hash, k))
  {
    var r := Reserve(t, hash, key);
    var w := AfterReserve(t, r, key);
    ReservePreserves(t, hash, key);
    InsertThenGet(t, hash, key, v);
    StoreKeepsKeys(w, hash, r.index, v);
  }

  /** One copied entry: a copy from `i + 1` on, run on the table `u` that copying source
      bucket `i` into `t` produced, is sound for `t` from `i` on. */
  lemma CopyStepFacts(t: Table, u: Table, hash: Key -> nat, src: Table, i: nat, c: Copy)
    requires WellFormed(t, hash) && u.Shaped() && src.Shaped() && UniqueKeys(src)
    requires c.table.Shaped() && i < c.stop <= |src.status| && src.status[i] == Occupied
    requires KeySet(u) == KeySet(t) + {src.keys[i]}
    requires OccupiedCount(u.status) == OccupiedCount(t.status) + (if src.keys[i] in KeySet(t) then 0 else 1)
    requires Get(u, hash, src.keys[i]) == Some(src.values[i])
    requires forall k :: k != src.keys[i] ==> Get(u, hash, k) == Get(t, hash, k)
    requires CopyFacts(u, hash, src, i + 1, c)
    ensures CopyFacts(t, hash, src, i, c)
  {
    var key := src.keys[i];
    var later := SourceKeys(src, i + 1, c.stop);
    SourceKeysStep(src, i, c.stop);
    LaterSourceKeysDiffer(src, i, c.stop);
    assert SourceKeys(src, i, c.stop) == {key} + later;
    CopyCount(KeySet(t), key, later);
    CopyUnion(KeySet(c.table), KeySet(u), KeySet(t), SourceKeys(src, i, c.stop), later, key);
    forall j | i <= j < c.stop && src.status[j] == Occupied
      ensures Get(c.table, hash, src.keys[j]) == Some(src.values[j])
    {
      if j == i {
        assert Get(c.table, hash, key) == Get(u, hash, key);
      }
    }
    forall k | k !in SourceKeys(src, i, c.stop)
      ensures Get(c.table, hash, k) == Get(t, hash, k)
    {
      assert k != key && k !in later;
    }
  }

  /** The set arithmetic of the keys held: adding `key` and then `later` adds their union. */
  lemma CopyUnion(final: set<Key>, middle: set<Key>, held: set<Key>, copied: set<Key>, later: set<Key>, key: Key)
    requires final == middle + later && middle == held + {key} && copied == {key} + later
    ensures final == held + copied
  {
  }

  /** The set arithmetic of the count: copying `key` and then `later` adds to `held` the new
      keys among them, counted once each. */
  lemma CopyCount(held: set<Key>, key: Key, later: set<Key>)
    requires key !in later
    ensures |({key} + later) - held| == (if key in held then 0 else 1) + |later - (held + {key})|
  {
    assert later - (held + {key}) == later - held;
    var added := if key in held then {} else {key};
    assert ({key} + later) - held == added + (later - held);
    assert added * (later - held) == {};
  }

  /** A copy that stops at `i` itself, with nothing copied: at the end of the source, or at
      a key the target refuses. */
  lemma CopyStopSound(t: Table, hash: Key -> nat, src: Table, i: nat)
    requires WellFormed(t, hash) && src.Shaped() && i <= |src.status|
    requires CopyFrom(t, hash, src, i).table == t && CopyFrom(t, hash, src, i).stop == i
    requires !CopyFrom(t, hash, src, i).ok ==>
      src.status[i] == Occupied && Reserve(t, hash, src.keys[i]).Full?
    requires CopyFrom(t, hash, src, i).ok <==> i == |src.status|
    ensures CopySound(t, hash, src, i)
  {
    assert SourceKeys(src, i, i) == {};
  }

  /** Passing over a source bucket that is not Occupied. */
  lemma CopySkipSound(t: Table, hash: Key -> nat, src: Table, i: nat)
    requires WellFormed(t, hash) && src.Shaped() && i < |src.status| && src.status[i] != Occupied
    requires CopySound(t, hash, src, i + 1)
    ensures CopySound(t, hash, src, i)
  {
    var c := CopyFrom(t, hash, src, i);
    assert c == CopyFrom(t, hash, src, i + 1);
    CopySkipFacts(t, hash, src, i, c);
  }

  lemma CopySkipFacts(t: Table, hash: Key -> nat, src: Table, i: nat, c: Copy)
    requires t.Shaped() && src.Shaped() && c.table.Shaped() && i < c.stop <= |src.status|
    requires src.status[i] != Occupied && CopyFacts(t, hash, src, i + 1, c)
    ensures CopyFacts(t, hash, src, i, c)
  {
    SourceKeysStep(src, i, c.stop);
    assert SourceKeys(src, i, c.stop) == SourceKeys(src, i + 1, c.stop);
    ReadsSourceSkip(c.table, hash, src, i, c.stop);
  }

  lemma ReadsSourceSkip(u: Table, hash: Key -> nat, src: Table, i: nat, j: nat)
    requires u.Shaped() && src.Shaped() && i < j <= |src.status| && src.status[i] != Occupied
    requires ReadsSource(u, hash, src, i + 1, j)
    ensures ReadsSource(u, hash, src, i, j)
  {
  }

  lemma CopyStepSound(t: Table, hash: Key -> nat, src: Table, i: nat)
    requires WellFormed(t, hash) && src.Shaped() && UniqueKeys(src) && i < |src.status|
    requires src.status[i] == Occupied && !Reserve(t, hash, src.keys[i]).Full?
    requires var r := Reserve(t, hash, src.keys[i]);
      CopySound(StoreValue(AfterReserve(t, r, src.keys[i]), r.index, src.values[i]), hash, src, i + 1)
    ensures CopySound(t, hash, src, i)
  {
    var key := src.keys[i];
    var r := Reserve(t, hash, key);
    var u := StoreValue(AfterReserve(t, r, key), r.index, src.values[i]);
    CopyOne(t, hash, key, src.values[i]);
    assert CopyFrom(t, hash, src, i) == CopyFrom(u, hash, src, i + 1);
    CopyStepFacts(t, u, hash, src, i, CopyFrom(u, hash, src, i + 1));
  }

  lemma {:induction false} CopyFromCorrect(t: Table, hash: Key -> nat, src: Table, i: nat)
    requires WellFormed(t, hash) && src.Shaped() && UniqueKeys(src) && i <= |src.status|
    ensures CopySound(t, hash, src, i)
    decreases |src.status| - i
  {
    if i == |src.status| {
      CopyStopSound(t, hash, src, i);
    } else if src.status[i] != Occupied {
      CopyFromCorrect(t, hash, src, i + 1);
      CopySkipSound(t, hash, src, i);
    } else {
      var key := src.keys[i];
      var r := Reserve(t, hash, key);
      if r.Full? {
        CopyStopSound(t, hash, src, i);
      } else {
        var u := StoreValue(AfterReserve(t, r, key), r.index, src.values[i]);
        CopyOne(t, hash, key, src.values[i]);
        CopyFromCorrect(u, hash, src, i + 1);
        CopyStepSound(t, hash, src, i);
      }
    }
  }

  /** While the target has room for every remaining source entry inside one probe window, no
      key is refused and the copy runs to the end. */
  lemma {:induction false} CopyFromSucceeds(t: Table, hash: Key -> nat, src: Table, i: nat)
    requires WellFormed(t, hash) && src.Shaped() && i <= |src.status|
    requires OccupiedCount(t.status) + |OccupiedFrom(src.status, i)| <= ProbeLimit(|t.status|)
    ensures CopyFrom(t, hash, src, i).ok
    decreases |src.status| - i
  {
    if i < |src.status| {
      var rest := OccupiedFrom(src.status, i + 1);
      if src.status[i] != Occupied {
        assert OccupiedFrom(src.status, i) == rest;
        CopyFromSucceeds(t, hash, src, i + 1);
      } else {
        assert OccupiedFrom(src.status, i) == {i} + rest && i !in rest;
        var key := src.keys[i];
        RoomMeansNotFull(t, hash, key);
        var r := Reserve(t, hash, key);
        var w := AfterReserve(t, r, key);
        ReservePreserves(t, hash, key);
        StoreKeepsKeys(w, hash, r.index, src.values[i]);
        CopyFromSucceeds(StoreValue(w, r.index, src.values[i]), hash, src, i + 1);
      }
    }
  }

  /** A copy of a whole well-formed source that runs to the end leaves the target holding its
      own keys and the source's; every source key reads in the target what it reads in the
      source, and every other key reads what it read before. */
  lemma CopyAllReadsSource(t: Table, hash: Key -> nat, src: Table, srcHash: Key -> nat)
    requires WellFormed(t, hash) && WellFormed(src, srcHash)
    requires CopyFrom(t, hash, src, 0).ok
    ensures var u := CopyFrom(t, hash, src, 0).table;
      && WellFormed(u, hash)
      && KeySet(u) == KeySet(t) + KeySet(src)
      && OccupiedCount(u.status) == OccupiedCount(t.status) + |KeySet(src) - KeySet(t)|
      && (forall k :: k in KeySet(src) ==> Get(u, hash, k) == Get(src, srcHash, k))
      && (forall k :: k !in KeySet(src) ==> Get(u, hash, k) == Get(t, hash, k))
  {
    var c := CopyFrom(t, hash, src, 0);
    CopyFromCorrect(t, hash, src, 0);
    assert SourceKeys(src, 0, |src.status|) == KeySet(src);
    forall k | k in KeySet(src)
      ensures Get(c.table, hash, k) == Get(src, srcHash, k)
    {
      var j :| 0 <= j < |src.status| && src.status[j] == Occupied && src.keys[j] == k;
      FindCorrect(src, srcHash, k);
    }
  }

  /** A source whose keys are all new to the target adds exactly its own number of entries. */
  lemma DisjointCopyCount(t: Table, src: Table)
    requires t.Shaped() && src.Shaped() && UniqueKeys(src)
    requires KeySet(src) !! KeySet(t)
    ensures |KeySet(src) - KeySet(t)| == OccupiedCount(src.status)
  {
    assert KeySet(src) - KeySet(t) == KeySet(src);
    KeySetSize(src);
  }
}
