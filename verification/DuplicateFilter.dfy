/** The duplicate filter: a ring of the last 512 keys, with a time window. */
module DuplicateFilters {
  import opened Clock

  datatype DuplicateKey = DuplicateKey(originId: U32, messageId: U32, frameType: nat, fragmentIndex: nat)

  const CAPACITY := 512

  datatype Entry = Entry(key: DuplicateKey, firstSeenMs: U32, used: bool)

  const EMPTY_ENTRY := Entry(DuplicateKey(0, 0, 0, 0), 0, false)

  /** A key together with the true time at which it was remembered. */
  datatype Memory = Memory(key: DuplicateKey, at: nat)

  /** The memories that the ring can still hold. */
  predicate Recent(history: seq<Memory>, h: int) { 0 <= h < |history| && |history| - CAPACITY <= h }

  /** The simple specification: the key is among the last 512 remembered, no longer ago than the window. */
  ghost predicate InHorizon(history: seq<Memory>, key: DuplicateKey, now: nat, window: nat) {
    exists h :: Recent(history, h) && history[h].key == key && history[h].at + window >= now
  }

  /** No memory in the ring is so old that 32-bit subtraction misjudges its age. */
  ghost predicate NoWrap(history: seq<Memory>, now: nat) {
    forall h :: Recent(history, h) ==> now < history[h].at + WRAP
  }

  /** The slot of the h-th memory. */
  function SlotOf(h: nat): (i: nat)
    ensures i < CAPACITY
  {
    h % CAPACITY
  }

  lemma SlotsDiffer(h: nat, k: nat)
    requires h < k < h + CAPACITY
    ensures SlotOf(h) != SlotOf(k)
  {
  }

  /** The latest of n memories that went into slot i; negative if none did. */
  function LatestIn(n: nat, i: nat): int { n - 1 - (n - 1 - i) % CAPACITY }

  lemma LatestIs(n: nat, i: nat)
    requires i < CAPACITY
    ensures n - CAPACITY <= LatestIn(n, i) < n
    ensures LatestIn(n, i) >= 0 ==> SlotOf(LatestIn(n, i)) == i
    ensures LatestIn(n, i) < 0 <==> n <= i
    ensures forall h :: 0 <= h < n && n - CAPACITY <= h && SlotOf(h) == i ==> h == LatestIn(n, i)
  {
  }

  lemma SlotReached(h: nat)
    ensures SlotOf(h) <= h
  {
  }

  class DuplicateFilter {
    const entries: array<Entry>
    var nextInsert: nat
    ghost const window: U32
    ghost var history: seq<Memory>
    ghost var clock: nat

    ghost predicate Valid()
      reads this, entries
    {
      && entries.Length == CAPACITY
      && nextInsert == SlotOf(|history|)
      && (forall h :: Recent(history, h) ==> SlotHolds(entries[SlotOf(h)], history[h]))
      && (forall i :: |history| <= i < CAPACITY ==> !entries[i].used)
      && (forall h :: 0 <= h < |history| ==> history[h].at <= clock)
    }

    /** A slot holds a memory; it may be marked unused once the memory is outside the window. */
    ghost predicate SlotHolds(e: Entry, m: Memory)
      reads this
    {
      && e.key == m.key && e.firstSeenMs == Stamp(m.at)
      && (!e.used ==> clock > m.at + window)
    }

    constructor (ghost window: U32)
      ensures Valid() && fresh(entries) && this.window == window && history == [] && clock == 0
    {
      entries := new Entry[CAPACITY](_ => EMPTY_ENTRY);
      nextInsert := 0;
      this.window := window;
      history, clock := [], 0;
    }

    /** Whether the key was seen within the window. Never misses a key in the horizon, and says nothing
        else unless 32-bit subtraction has wrapped. */
    method Seen(key: DuplicateKey, nowMs: U32, windowMs: U32, ghost now: nat) returns (r: bool)
      requires Valid() && windowMs == window && nowMs == Stamp(now) && clock <= now
      modifies this`clock, entries
      ensures Valid() && history == old(history) && clock == now
      ensures InHorizon(history, key, now, window) ==> r
      ensures r && NoWrap(history, now) ==> InHorizon(history, key, now, window)
      ensures !r ==> forall i :: 0 <= i < CAPACITY && entries[i].used ==>
                       Elapsed(nowMs, entries[i].firstSeenMs) <= windowMs && entries[i].key != key
    {
      hide SlotOf, LatestIn;
      clock := now;
      for i := 0 to CAPACITY
        invariant Valid() && history == old(history) && clock == now
        invariant forall h :: Recent(history, h) && SlotOf(h) < i ==> !Matches(history[h], key, now)
        invariant forall j :: 0 <= j < i && entries[j].used ==>
                    Elapsed(nowMs, entries[j].firstSeenMs) <= windowMs && entries[j].key != key
      {
        LatestIs(|history|, i);
        ghost var h := LatestIn(|history|, i);
        if entries[i].used {
          assert Recent(history, h) && SlotHolds(entries[SlotOf(h)], history[h]);
          ElapsedIsAge(now, history[h].at);
          if Elapsed(nowMs, entries[i].firstSeenMs) > windowMs {
            Expire(i, h);
          } else if entries[i].key == key {
            return true;
          }
        } else if h >= 0 {
          assert Recent(history, h) && SlotHolds(entries[SlotOf(h)], history[h]);
        }
      }
      return false;
    }

    ghost predicate Matches(m: Memory, key: DuplicateKey, now: nat)
      reads this
    {
      m.key == key && m.at + window >= now
    }

    method Expire(i: nat, ghost h: nat)
      requires Valid() && i < CAPACITY && Recent(history, h) && SlotOf(h) == i
      requires clock > history[h].at + window
      modifies entries
      ensures Valid() && !entries[i].used && forall j :: 0 <= j < CAPACITY && j != i ==> entries[j] == old(entries[j])
    {
      hide SlotOf;
      forall k | Recent(history, k) && k != h
        ensures SlotOf(k) != i
      {
        if k < h {
          SlotsDiffer(k, h);
        } else {
          SlotsDiffer(h, k);
        }
      }
      assert i < |history| by { SlotReached(h); }
      entries[i] := entries[i].(used := false);
    }

    method Remember(key: DuplicateKey, nowMs: U32, ghost now: nat)
      requires Valid() && nowMs == Stamp(now) && clock <= now
      modifies this, entries
      ensures Valid() && history == old(history) + [Memory(key, now)] && clock == now
    {
      ghost var n := |history|;
      entries[nextInsert] := Entry(key, nowMs, true);
      nextInsert := (nextInsert + 1) % CAPACITY;
      assert nextInsert == SlotOf(n + 1);
      assert n < CAPACITY ==> SlotOf(n) == n;
      hide SlotOf;
      history, clock := history + [Memory(key, now)], now;
      forall h | Recent(history, h)
        ensures SlotHolds(entries[SlotOf(h)], history[h])
      {
        if h < n {
          SlotsDiffer(h, n);
          assert old(Recent(history, h));
        }
      }
    }

    method SeenAndRemember(key: DuplicateKey, nowMs: U32, windowMs: U32, ghost now: nat) returns (r: bool)
      requires Valid() && windowMs == window && nowMs == Stamp(now) && clock <= now
      modifies this, entries
      ensures Valid() && clock == now
      ensures InHorizon(old(history), key, now, window) ==> r
      ensures r && NoWrap(old(history), now) ==> InHorizon(old(history), key, now, window)
      ensures history == if r then old(history) else old(history) + [Memory(key, now)]
    {
      r := Seen(key, nowMs, windowMs, now);
      if !r {
        Remember(key, nowMs, now);
      }
    }

    method Clear()
      requires Valid()
      modifies this, entries
      ensures Valid() && history == [] && clock == old(clock)
    {
      for i := 0 to CAPACITY
        invariant entries.Length == CAPACITY && history == old(history) && clock == old(clock)
        invariant forall j :: 0 <= j < i ==> !entries[j].used
      {
        entries[i] := entries[i].(used := false, firstSeenMs := 0);
      }
      nextInsert := 0;
      history := [];
    }
  }

  // ---------- Consequences for a node that checks before it accepts ----------

  /** Keys accepted through the filter: nothing is accepted while it is in the horizon. */
  ghost predicate CheckedHistory(history: seq<Memory>, window: nat) {
    forall k :: 0 <= k < |history| ==> !InHorizon(history[..k], history[k].key, history[k].at, window)
  }

  /** Between two acceptances of one key there are 512 others, or more time than the window. */
  lemma AcceptedApart(history: seq<Memory>, window: nat, h: nat, k: nat)
    requires CheckedHistory(history, window) && h < k < |history| && history[h].key == history[k].key
    ensures k - h > CAPACITY || history[k].at > history[h].at + window
  {
    if k - h <= CAPACITY {
      assert history[..k][h] == history[h];
      assert Recent(history[..k], h);
      assert !InHorizon(history[..k], history[k].key, history[k].at, window);
    }
  }
}
