/**
 * The resumable scan of `find_next_valid_entry`: from a start index, the next Occupied bucket
 * in storage order. Calling it again from one past each index it returns walks the whole map,
 * and the lemmas here say that this walk visits every entry exactly once, in index order.
 */
module Cursor {
  import opened Wrappers
  import opened Probing

  /** The index `find_next_valid_entry` hands back when no entry is left. */
  const NO_MORE_ENTRIES: nat := 0xFFFF

  /** The first Occupied bucket at or after `start`, if any. */
  function NextOccupied(status: seq<Status>, start: nat): (r: Option<nat>)
    ensures r.Some? ==> start <= r.value < |status| && status[r.value] == Occupied
    ensures r.Some? ==> forall k :: start <= k < r.value ==> status[k] != Occupied
    ensures r.None? ==> forall k :: start <= k < |status| ==> status[k] != Occupied
    decreases |status| - start
  {
    if start >= |status| then None
    else if status[start] == Occupied then Some(start)
    else NextOccupied(status, start + 1)
  }

  /** The index part of what `find_next_valid_entry` returns. */
  function CursorIndex(r: Option<nat>): nat
  {
    match r
    case Some(i) => i
    case None => NO_MORE_ENTRIES
  }

  /** The indices a caller visits by starting at `start` and resuming one past each index
      returned, until the scan reports that no entry is left. */
  function Enumerate(status: seq<Status>, start: nat): seq<nat>
    decreases |status| - start
  {
    match NextOccupied(status, start)
    case None => []
    case Some(i) => [i] + Enumerate(status, i + 1)
  }

  /** The Occupied buckets at or after `start`. */
  function OccupiedFrom(status: seq<Status>, start: nat): set<nat>
  {
    set i: nat | start <= i < |status| && status[i] == Occupied
  }

  /** The walk from `start` lists exactly the Occupied buckets at or after `start`, in strictly
      increasing order, so each once. */
  lemma {:induction false} EnumerateFrom(status: seq<Status>, start: nat)
    ensures Increasing(Enumerate(status, start))
    ensures forall k :: k in Enumerate(status, start) <==> k in OccupiedFrom(status, start)
    ensures |Enumerate(status, start)| == |OccupiedFrom(status, start)|
    decreases |status| - start
  {
    var e := Enumerate(status, start);
    match NextOccupied(status, start)
    case None =>
      assert OccupiedFrom(status, start) == {};
    case Some(i) =>
      EnumerateFrom(status, i + 1);
      var rest := Enumerate(status, i + 1);
      assert e == [i] + rest;
      OccupiedFromSplit(status, start, i);
      ConsIncreasing(i, rest);
  }

  /** Strictly increasing: each index at most once, in storage order. */
  ghost predicate Increasing(s: seq<nat>)
  {
    forall a, b :: 0 <= a < b < |s| ==> s[a] < s[b]
  }

  /** An index below every member of an increasing walk can lead it. */
  lemma ConsIncreasing(i: nat, rest: seq<nat>)
    requires Increasing(rest) && forall k :: k in rest ==> i < k
    ensures Increasing([i] + rest)
  {
    var e := [i] + rest;
    forall a, b | 0 <= a < b < |e| ensures e[a] < e[b] {
      assert e[b] == rest[b - 1] && rest[b - 1] in rest;
      if a > 0 {
        assert e[a] == rest[a - 1];
      }
    }
  }

  /** The Occupied buckets from `start` are the first of them and those after it. */
  lemma OccupiedFromSplit(status: seq<Status>, start: nat, i: nat)
    requires NextOccupied(status, start) == Some(i)
    ensures OccupiedFrom(status, start) == {i} + OccupiedFrom(status, i + 1)
    ensures i !in OccupiedFrom(status, i + 1)
    ensures |OccupiedFrom(status, start)| == 1 + |OccupiedFrom(status, i + 1)|
  {
  }

  /** Walking the whole map with the cursor visits every Occupied bucket exactly once, in index
      order, and takes as many steps as the map has entries. */
  lemma EnumerateAll(status: seq<Status>)
    ensures Increasing(Enumerate(status, 0))
    ensures forall k :: k in Enumerate(status, 0) <==> k in OccupiedIndices(status)
    ensures |Enumerate(status, 0)| == OccupiedCount(status)
  {
    EnumerateFrom(status, 0);
    assert OccupiedFrom(status, 0) == OccupiedIndices(status);
  }
}
