/** Reassembly of fragments in a fixed set of slots that are reused without clearing their buffers. */
module Reassembly {
  import opened Wrappers
  import opened Octets
  import opened Clock
  import opened MeshFrames

  const SLOT_COUNT := 24

  datatype Key = Key(originId: U32, messageId: U32, appType: Octet)

  datatype Incoming = Incoming(key: Key, hops: Octet, fragIndex: Octet, fragCount: Octet, totalLen: U16,
                               chunk: Bytes, rssi: int, senderMac: Option<Mac>)

  datatype Message = Message(key: Key, hops: Octet, rssi: int, senderMac: Option<Mac>, data: Bytes)

  // ---------- The simple specification ----------

  /** What is known about a message of which fragments have arrived: the chunk received under each index. */
  datatype Assembly = Assembly(fragCount: Octet, totalLen: U16, parts: map<nat, Bytes>,
                               hops: Octet, rssi: int, senderMac: Option<Mac>, at: nat)

  type Table = map<Key, Assembly>

  /** The checks that need no state. */
  predicate Admissible(f: Incoming) {
    && f.fragCount != 0 && f.fragCount <= MAX_FRAGMENTS && f.fragIndex < f.fragCount
    && f.totalLen <= MAX_APP_PAYLOAD && |f.chunk| <= CHUNK_SIZE
    && f.fragIndex * CHUNK_SIZE + |f.chunk| <= f.totalLen
  }

  function Opened(f: Incoming, now: nat): Assembly {
    Assembly(f.fragCount, f.totalLen, map[], f.hops, f.rssi, f.senderMac, now)
  }

  /** The largest hop count, and the strongest signal with its sender. */
  function Merged(a: Assembly, f: Incoming): Assembly {
    a.(hops := if f.hops > a.hops then f.hops else a.hops,
       rssi := if f.rssi > a.rssi then f.rssi else a.rssi,
       senderMac := if f.rssi > a.rssi && f.senderMac.Some? then f.senderMac else a.senderMac)
  }

  function Joined(t: Table, f: Incoming, now: nat): Assembly {
    if f.key in t then Merged(t[f.key], f) else Opened(f, now)
  }

  predicate Complete(a: Assembly) { forall i :: 0 <= i < a.fragCount ==> i in a.parts }

  /** The table after a fragment has arrived. */
  function Pushed(t: Table, f: Incoming, now: nat): Table {
    if !Admissible(f) || (f.key in t && (t[f.key].fragCount != f.fragCount || t[f.key].totalLen != f.totalLen)) then t
    else
      var a := Joined(t, f, now);
      if f.fragIndex in a.parts then t[f.key := a]
      else
        var b := a.(parts := a.parts[f.fragIndex := f.chunk], at := now);
        if Complete(b) then t - {f.key} else t[f.key := b]
  }

  /** The assembly that a fragment completes, if it completes one. */
  function Completed(t: Table, f: Incoming, now: nat): Option<Assembly> {
    if !Admissible(f) || (f.key in t && (t[f.key].fragCount != f.fragCount || t[f.key].totalLen != f.totalLen)) then
      None
    else
      var a := Joined(t, f, now);
      if f.fragIndex in a.parts then None
      else
        var b := a.(parts := a.parts[f.fragIndex := f.chunk], at := now);
        if Complete(b) then Some(b) else None
  }

  function Max(a: int, b: int): int { if a >= b then a else b }

  /** What a fragment does, whatever it is. One that is out of range, or disagrees with the others of its message,
      changes nothing. Any other is merged: the largest hops, the best signal with its sender, and its chunk if that is
      new. The message completes exactly when a new chunk is the last one, and no other message is touched. */
  ghost predicate TakesFragment(t: Table, t': Table, done: Option<Assembly>, f: Incoming, now: nat) {
    if || !(f.fragIndex < f.fragCount <= 6 && f.totalLen <= 1024 && |f.chunk| <= 180)
       || 180 * f.fragIndex + |f.chunk| > f.totalLen
       || (f.key in t && !(t[f.key].fragCount == f.fragCount && t[f.key].totalLen == f.totalLen))
    then t' == t && done == None
    else
      var was := if f.key in t then t[f.key]
                 else Assembly(f.fragCount, f.totalLen, map[], f.hops, f.rssi, f.senderMac, now);
      var known := f.fragIndex in was.parts;
      && t' - {f.key} == t - {f.key} && (f.key in t' <==> done.None?)
      && (done.Some? <==> !known && forall i: nat :: i < f.fragCount && i != f.fragIndex ==> i in was.parts)
      && var a := if done.Some? then done.value else t'[f.key];
      && a.fragCount == f.fragCount && a.totalLen == f.totalLen && a.at == (if known then was.at else now)
      && a.parts == (if known then was.parts else was.parts[f.fragIndex := f.chunk])
      && a.hops == Max(was.hops, f.hops) && a.rssi == Max(was.rssi, f.rssi)
      && a.senderMac == if f.rssi > was.rssi && f.senderMac.Some? then f.senderMac else was.senderMac
  }

  lemma PushTakesFragment(t: Table, f: Incoming, now: nat)
    ensures TakesFragment(t, Pushed(t, f, now), Completed(t, f, now), f, now)
  {
    var t', done := Pushed(t, f, now), Completed(t, f, now);
    assert t' - {f.key} == t - {f.key};
    if Admissible(f) && (f.key in t ==> t[f.key].fragCount == f.fragCount && t[f.key].totalLen == f.totalLen) {
      var a := Joined(t, f, now);
      if f.fragIndex !in a.parts {
        var b := a.(parts := a.parts[f.fragIndex := f.chunk], at := now);
        assert forall i: nat :: i in b.parts <==> i == f.fragIndex || i in a.parts;
        assert b.fragCount == f.fragCount;
        assert Complete(b) ==> forall i: nat :: i < f.fragCount && i != f.fragIndex ==> i in a.parts;
      }
    }
  }

  /** The received chunks stand at their offsets in the data. */
  ghost predicate Holds(data: Bytes, parts: map<nat, Bytes>) {
    forall i :: i in parts ==>
      i * CHUNK_SIZE + |parts[i]| <= |data| && data[i * CHUNK_SIZE..i * CHUNK_SIZE + |parts[i]|] == parts[i]
  }

  /** A message delivers an assembly. */
  ghost predicate Delivers(m: Message, k: Key, a: Assembly) {
    && m.key == k && m.hops == a.hops && m.rssi == a.rssi && m.senderMac == a.senderMac
    && |m.data| == a.totalLen && Holds(m.data, a.parts)
  }

  ghost predicate WellFormed(a: Assembly) {
    && a.fragCount <= MAX_FRAGMENTS && a.totalLen <= MAX_APP_PAYLOAD
    && forall i :: i in a.parts ==>
         i < a.fragCount && |a.parts[i]| <= CHUNK_SIZE && i * CHUNK_SIZE + |a.parts[i]| <= a.totalLen
  }

  // ---------- Slots ----------

  datatype Slot = Slot(active: bool, key: Key, hops: Octet, fragCount: Octet, totalLen: U16, received: set<nat>,
                       lastUpdateMs: U32, bestRssi: int, senderMac: Option<Mac>, data: Bytes)

  const NO_KEY := Key(0, 0, APP_TEXT)

  /** Resetting keeps the bytes. */
  function ResetSlot(s: Slot): Slot {
    Slot(false, NO_KEY, 0, 0, 0, {}, 0, -128, None, s.data)
  }

  ghost predicate Represents(s: Slot, a: Assembly) {
    && s.hops == a.hops && s.fragCount == a.fragCount && s.totalLen == a.totalLen
    && s.received == a.parts.Keys && s.lastUpdateMs == Stamp(a.at)
    && s.bestRssi == a.rssi && s.senderMac == a.senderMac
    && WellFormed(a) && Holds(s.data, a.parts)
  }

  /** The slots, as a sequence, are a representation of the table: one active slot for each key. */
  ghost predicate SlotsAre(slots: seq<Slot>, table: Table) {
    && (forall i :: 0 <= i < |slots| ==> |slots[i].data| == MAX_APP_PAYLOAD)
    && (forall i :: 0 <= i < |slots| && slots[i].active ==>
          slots[i].key in table && Represents(slots[i], table[slots[i].key]))
    && (forall i, j :: 0 <= i < j < |slots| && slots[i].active && slots[j].active ==> slots[i].key != slots[j].key)
    && (forall k :: k in table ==> ActiveKey(slots, k))
  }

  ghost predicate ActiveKey(slots: seq<Slot>, k: Key) {
    exists i :: 0 <= i < |slots| && slots[i].active && slots[i].key == k
  }

  /** Overwriting one slot with a representation of its own key. */
  lemma SlotStored(slots: seq<Slot>, table: Table, i: nat, s: Slot, a: Assembly)
    requires SlotsAre(slots, table) && i < |slots|
    requires s.active && |s.data| == MAX_APP_PAYLOAD && Represents(s, a)
    requires if slots[i].active then slots[i].key == s.key else s.key !in table
    ensures SlotsAre(slots[i := s], table[s.key := a])
  {
    var slots', table' := slots[i := s], table[s.key := a];
    forall k | k in table'
      ensures ActiveKey(slots', k)
    {
      if k == s.key {
        assert slots'[i].key == k;
      } else {
        var j :| 0 <= j < |slots| && slots[j].active && slots[j].key == k;
        assert slots'[j].key == k;
      }
    }
  }

  lemma SlotFreed(slots: seq<Slot>, table: Table, i: nat)
    requires SlotsAre(slots, table) && i < |slots| && slots[i].active
    ensures SlotsAre(slots[i := ResetSlot(slots[i])], table - {slots[i].key})
  {
    var slots', table' := slots[i := ResetSlot(slots[i])], table - {slots[i].key};
    forall k | k in table'
      ensures ActiveKey(slots', k)
    {
      var j :| 0 <= j < |slots| && slots[j].active && slots[j].key == k;
      assert slots'[j].key == k;
    }
  }

  /** Copying a chunk to its place disturbs no other chunk. */
  lemma ChunkStored(data: Bytes, parts: map<nat, Bytes>, index: nat, chunk: Bytes)
    requires Holds(data, parts) && index !in parts
    requires forall i :: i in parts ==> |parts[i]| <= CHUNK_SIZE
    requires |chunk| <= CHUNK_SIZE && index * CHUNK_SIZE + |chunk| <= |data|
    ensures Holds(Overwritten(data, index * CHUNK_SIZE, chunk), parts[index := chunk])
  {
    var data' := Overwritten(data, index * CHUNK_SIZE, chunk);
    forall i | i in parts
      ensures data'[i * CHUNK_SIZE..i * CHUNK_SIZE + |parts[i]|] == parts[i]
    {
      var o := i * CHUNK_SIZE;
      assert o + CHUNK_SIZE <= index * CHUNK_SIZE || index * CHUNK_SIZE + CHUNK_SIZE <= o;
      assert data'[o..o + |parts[i]|] == data[o..o + |parts[i]|];
    }
  }

  function Overwritten(data: Bytes, offset: nat, chunk: Bytes): (r: Bytes)
    requires offset + |chunk| <= |data|
    ensures |r| == |data| && r[offset..offset + |chunk|] == chunk
  {
    data[..offset] + chunk + data[offset + |chunk|..]
  }

  function Evicted(t: Table, victim: Option<Key>): Table {
    match victim
    case None => t
    case Some(k) => t - {k}
  }

  /** All slots are taken, and no message was touched longer ago. */
  ghost predicate Oldest(slots: seq<Slot>, table: Table, victim: Key, nowMs: U32) {
    && victim in table
    && (forall i :: 0 <= i < |slots| ==> slots[i].active)
    && forall k :: k in table ==> Elapsed(nowMs, Stamp(table[k].at)) <= Elapsed(nowMs, Stamp(table[victim].at))
  }

  lemma OpenedRepresents(s: Slot, f: Incoming, now: nat)
    requires Admissible(f) && |s.data| == MAX_APP_PAYLOAD
    requires s.hops == f.hops && s.fragCount == f.fragCount && s.totalLen == f.totalLen && s.received == {}
    requires s.lastUpdateMs == Stamp(now) && s.bestRssi == f.rssi && s.senderMac == f.senderMac
    ensures Represents(s, Opened(f, now))
  {
  }

  lemma FilledRepresents(s: Slot, a: Assembly, f: Incoming, now: nat)
    requires Represents(s, a) && |s.data| == MAX_APP_PAYLOAD && Admissible(f) && f.fragIndex !in a.parts
    requires a.fragCount == f.fragCount && a.totalLen == f.totalLen
    ensures Represents(s.(data := Overwritten(s.data, f.fragIndex * CHUNK_SIZE, f.chunk),
                          received := s.received + {f.fragIndex}, lastUpdateMs := Stamp(now)),
                       a.(parts := a.parts[f.fragIndex := f.chunk], at := now))
  {
    ChunkStored(s.data, a.parts, f.fragIndex, f.chunk);
  }

  class ReassemblyManager {
    const slots: array<Slot>
    ghost var table: Table

    ghost predicate Valid()
      reads this, slots
    {
      slots.Length == SLOT_COUNT && SlotsAre(slots[..], table)
    }

    constructor ()
      ensures Valid() && fresh(slots) && table == map[]
    {
      slots := new Slot[SLOT_COUNT](_ => Slot(false, NO_KEY, 0, 0, 0, {}, 0, -128, None, seq(MAX_APP_PAYLOAD, _ => 0)));
      table := map[];
    }

    method FindSlot(key: Key) returns (r: Option<nat>)
      requires Valid()
      ensures r.Some? <==> key in table
      ensures r.Some? ==> r.value < SLOT_COUNT && slots[r.value].active && slots[r.value].key == key
    {
      for i := 0 to SLOT_COUNT
        invariant forall j :: 0 <= j < i && slots[j].active ==> slots[j].key != key
      {
        if slots[i].active && slots[i].key == key {
          return Some(i);
        }
      }
      assert key in table ==> ActiveKey(slots[..], key);
      return None;
    }

    /** A free slot, or else the oldest one, whose message is lost. */
    method AllocateSlot(nowMs: U32) returns (r: nat, ghost victim: Option<Key>)
      requires Valid()
      modifies this, slots
      ensures Valid() && r < SLOT_COUNT && !slots[r].active
      ensures victim.Some? ==> Oldest(old(slots[..]), old(table), victim.value, nowMs)
      ensures table == Evicted(old(table), victim)
    {
      for i := 0 to SLOT_COUNT
        invariant forall j :: 0 <= j < i ==> slots[j].active
      {
        if !slots[i].active {
          return i, None;
        }
      }
      var oldestIndex, oldestAge := 0, 0;
      for i := 0 to SLOT_COUNT
        invariant 0 <= oldestIndex < SLOT_COUNT
        invariant oldestAge <= Elapsed(nowMs, slots[oldestIndex].lastUpdateMs)
        invariant forall j :: 0 <= j < i ==> Elapsed(nowMs, slots[j].lastUpdateMs) <= oldestAge
      {
        var age := Elapsed(nowMs, slots[i].lastUpdateMs);
        if age > oldestAge {
          oldestAge, oldestIndex := age, i;
        }
      }
      forall k | k in table
        ensures Elapsed(nowMs, Stamp(table[k].at)) <= Elapsed(nowMs, slots[oldestIndex].lastUpdateMs)
      {
        assert ActiveKey(slots[..], k);
      }
      SlotFreed(slots[..], table, oldestIndex);
      victim := Some(slots[oldestIndex].key);
      table := table - {slots[oldestIndex].key};
      slots[oldestIndex] := ResetSlot(slots[oldestIndex]);
      r := oldestIndex;
    }
  
    /** Opens a slot for the first fragment of a message. */
    method OpenSlot(f: Incoming, nowMs: U32, ghost now: nat) returns (at: nat, ghost victim: Option<Key>)
      requires Valid() && nowMs == Stamp(now) && Admissible(f) && f.key !in table
      modifies this, slots
      ensures Valid() && at < SLOT_COUNT && slots[at].active && slots[at].key == f.key
      ensures victim.Some? ==> Oldest(old(slots[..]), old(table), victim.value, nowMs)
      ensures table == Evicted(old(table), victim)[f.key := Opened(f, now)]
    {
      at, victim := AllocateSlot(nowMs);
      hide Opened, Complete;
      var s := slots[at].(active := true, key := f.key, fragCount := f.fragCount, totalLen := f.totalLen,
                          received := {}, hops := f.hops, lastUpdateMs := nowMs, bestRssi := f.rssi,
                          senderMac := f.senderMac);
      ghost var a := Opened(f, now);
      OpenedRepresents(s, f, now);
      SlotStored(slots[..], table, at, s, a);
      slots[at] := s;
      table := table[f.key := a];
    }

    /** Merges hops, signal and sender of a further fragment into its slot. */
    method MergeSlot(at: nat, f: Incoming)
      requires Valid() && at < SLOT_COUNT && slots[at].active && slots[at].key == f.key
      modifies this, slots
      ensures Valid() && slots[at].active && slots[at].key == f.key
      ensures table == old(table)[f.key := Merged(old(table)[f.key], f)]
    {
      ghost var a := Merged(table[f.key], f);
      var s := slots[at];
      if f.hops > s.hops {
        s := s.(hops := f.hops);
      }
      if f.rssi > s.bestRssi {
        s := s.(bestRssi := f.rssi);
        if f.senderMac.Some? {
          s := s.(senderMac := f.senderMac);
        }
      }
      assert Represents(s, a);
      SlotStored(slots[..], table, at, s, a);
      slots[at] := s;
      table := table[f.key := a];
    }

    /** Files one fragment. Up to the eviction of the oldest message when all slots are taken, the table
        changes as the simple specification says, and a message comes out exactly when it completes one. */
    method PushFragment(f: Incoming, nowMs: U32, ghost now: nat) returns (out: Option<Message>,
                        ghost victim: Option<Key>)
      requires Valid() && nowMs == Stamp(now)
      modifies this, slots
      ensures Valid()
      ensures victim.Some? ==> f.key !in old(table) && Oldest(old(slots[..]), old(table), victim.value, nowMs)
      ensures table == Pushed(Evicted(old(table), victim), f, now)
      ensures match Completed(Evicted(old(table), victim), f, now)
              case None => out == None
              case Some(a) => out.Some? && Delivers(out.value, f.key, a)
    {
      hide SlotsAre, Delivers;
      victim := None;
      if f.fragCount == 0 || f.fragCount > MAX_FRAGMENTS || f.fragIndex >= f.fragCount {
        return None, victim;
      }
      if f.totalLen > MAX_APP_PAYLOAD || |f.chunk| > CHUNK_SIZE {
        return None, victim;
      }
      var offset := f.fragIndex * CHUNK_SIZE;
      if offset + |f.chunk| > f.totalLen {
        return None, victim;
      }
      var found := FindSlot(f.key);
      var at: nat;
      if found == None {
        at, victim := OpenSlot(f, nowMs, now);
      } else {
        at := found.value;
        SlotRepresents(at);
        if slots[at].fragCount != f.fragCount || slots[at].totalLen != f.totalLen {
          return None, victim;
        }
        MergeSlot(at, f);
      }
      SlotRepresents(at);
      if f.fragIndex in slots[at].received {
        return None, victim;
      }
      out := FillSlot(at, f, offset, nowMs, now);
    }

    lemma SlotRepresents(at: nat)
      requires Valid() && at < SLOT_COUNT && slots[at].active
      ensures slots[at].key in table
      ensures var a := table[slots[at].key];
        slots[at].fragCount == a.fragCount && slots[at].totalLen == a.totalLen && slots[at].received == a.parts.Keys
    {
      assert slots[..][at].active;
    }

    /** Stores a chunk that is new to its slot, and empties the slot when it is the last one missing. */
    method FillSlot(at: nat, f: Incoming, offset: nat, nowMs: U32, ghost now: nat) returns (out: Option<Message>)
      requires Valid() && nowMs == Stamp(now) && Admissible(f) && offset == f.fragIndex * CHUNK_SIZE
      requires at < SLOT_COUNT && slots[at].active && slots[at].key == f.key && f.fragIndex !in slots[at].received
      requires slots[at].fragCount == f.fragCount && slots[at].totalLen == f.totalLen
      modifies this, slots
      ensures Valid()
      ensures var a := old(table)[f.key];
        var b := a.(parts := a.parts[f.fragIndex := f.chunk], at := now);
        if Complete(b) then
          table == old(table) - {f.key} && out.Some? && Delivers(out.value, f.key, b)
        else
          table == old(table)[f.key := b] && out == None
    {
      ghost var a := table[f.key];
      ghost var b := a.(parts := a.parts[f.fragIndex := f.chunk], at := now);
      assert slots[..][at].active;
      var s := slots[at];
      if |f.chunk| > 0 {
        s := s.(data := Overwritten(s.data, offset, f.chunk));
      } else {
        assert Overwritten(s.data, offset, f.chunk) == s.data;
      }
      s := s.(received := s.received + {f.fragIndex}, lastUpdateMs := nowMs);
      FilledRepresents(slots[at], a, f, now);
      hide Represents, Holds, Admissible, Delivers;
      SlotStored(slots[..], table, at, s, b);
      slots[at] := s;
      table := table[f.key := b];
      RepresentedParts(s, b);
      if !(forall i :: 0 <= i < s.fragCount ==> i in s.received) {
        return None;
      }
      EmittedDelivers(s, b);
      out := Some(Message(s.key, s.hops, s.bestRssi, s.senderMac, s.data[..s.totalLen]));
      SlotFreed(slots[..], table, at);
      slots[at] := ResetSlot(slots[at]);
      table := table - {f.key};
      assert table == old(table) - {f.key};
    }

    method ReleaseSlot(i: nat)
      requires Valid() && i < SLOT_COUNT && slots[i].active
      modifies this, slots
      ensures Valid()
      ensures old(slots[i].key in table) && table == old(table) - {old(slots[i].key)} && |table| == |old(table)| - 1
      ensures !slots[i].active && forall j :: 0 <= j < SLOT_COUNT && j != i ==> slots[j] == old(slots[j])
    {
      assert slots[..][i].key in table;
      SlotFreed(slots[..], table, i);
      RemoveOne(table, slots[i].key);
      table := table - {slots[i].key};
      slots[i] := ResetSlot(slots[i]);
    }

    /** Drops every message that has not been touched within the timeout, and counts them. */
    method PruneExpired(nowMs: U32, timeoutMs: U32) returns (dropped: nat)
      requires Valid()
      modifies this, slots
      ensures Valid()
      ensures table == Unexpired(old(table), nowMs, timeoutMs)
      ensures forall k :: k in table <==> k in old(table) && Elapsed(nowMs, Stamp(old(table)[k].at)) <= timeoutMs
      ensures forall k :: k in table ==> table[k] == old(table)[k]
      ensures dropped == |old(table)| - |table|
    {
      hide SlotsAre;
      dropped := 0;
      for i := 0 to SLOT_COUNT
        invariant Valid() && dropped == |old(table)| - |table|
        invariant Unexpired(table, nowMs, timeoutMs) == Unexpired(old(table), nowMs, timeoutMs)
        invariant forall j :: 0 <= j < i && slots[j].active ==> Elapsed(nowMs, slots[j].lastUpdateMs) <= timeoutMs
      {
        if slots[i].active {
          SlotStamp(i);
          if Elapsed(nowMs, slots[i].lastUpdateMs) > timeoutMs {
            ReleaseSlot(i);
            dropped := dropped + 1;
          }
        }
      }
      NothingExpired(nowMs, timeoutMs);
    }

    lemma SlotStamp(at: nat)
      requires Valid() && at < SLOT_COUNT && slots[at].active
      ensures slots[at].key in table && slots[at].lastUpdateMs == Stamp(table[slots[at].key].at)
    {
      assert slots[..][at].active;
    }

    lemma NothingExpired(nowMs: U32, timeoutMs: U32)
      requires Valid()
      requires forall j :: 0 <= j < SLOT_COUNT && slots[j].active ==> Elapsed(nowMs, slots[j].lastUpdateMs) <= timeoutMs
      ensures Unexpired(table, nowMs, timeoutMs) == table
    {
      forall k | k in table
        ensures Elapsed(nowMs, Stamp(table[k].at)) <= timeoutMs
      {
        assert ActiveKey(slots[..], k);
      }
    }
  }

  function Unexpired(t: Table, nowMs: U32, timeoutMs: U32): Table {
    map k | k in t && Elapsed(nowMs, Stamp(t[k].at)) <= timeoutMs :: t[k]
  }

  lemma RemoveOne(t: Table, k: Key)
    requires k in t
    ensures |t - {k}| == |t| - 1
  {
    assert (t - {k}).Keys == t.Keys - {k};
    assert |t.Keys - {k}| == |t.Keys| - 1;
  }

  lemma RepresentedParts(s: Slot, a: Assembly)
    requires Represents(s, a)
    ensures s.received == a.parts.Keys && s.fragCount == a.fragCount
  {
  }

  lemma EmittedDelivers(s: Slot, a: Assembly)
    requires Represents(s, a) && |s.data| == MAX_APP_PAYLOAD
    ensures s.totalLen <= |s.data|
    ensures Delivers(Message(s.key, s.hops, s.bestRssi, s.senderMac, s.data[..s.totalLen]), s.key, a)
  {
    PrefixHolds(s.data, s.totalLen, a.parts);
  }

  lemma PrefixHolds(data: Bytes, len: nat, parts: map<nat, Bytes>)
    requires len <= |data| && Holds(data, parts)
    requires forall i :: i in parts ==> i * CHUNK_SIZE + |parts[i]| <= len
    ensures Holds(data[..len], parts)
  {
    forall i | i in parts
      ensures data[..len][i * CHUNK_SIZE..i * CHUNK_SIZE + |parts[i]|] == parts[i]
    {
      var o, n := i * CHUNK_SIZE, |parts[i]|;
      assert data[..len][o..o + n] == data[o..o + n];
    }
  }

  // ---------- Genuine fragments ----------

  /** The fragment with the given index of a payload. */
  ghost predicate IsFragmentOf(f: Incoming, payload: Bytes) {
    && f.fragCount == FragmentCount(|payload|) && f.totalLen == |payload| && f.fragIndex < f.fragCount
    && f.chunk == FragmentSlice(payload, f.fragIndex).value
  }

  /** All chunks that have arrived are cut from the payload. */
  ghost predicate PartOf(a: Assembly, payload: Bytes) {
    && a.fragCount == FragmentCount(|payload|) && a.totalLen == |payload|
    && forall i :: i in a.parts ==> i < a.fragCount && a.parts[i] == FragmentSlice(payload, i).value
  }

  lemma {:induction false} HeldPrefix(data: Bytes, payload: Bytes, a: Assembly, k: nat)
    requires |payload| <= MAX_APP_PAYLOAD && PartOf(a, payload) && Complete(a)
    requires |data| == |payload| && Holds(data, a.parts) && k <= a.fragCount
    ensures var n := if k * CHUNK_SIZE < |payload| then k * CHUNK_SIZE else |payload|; data[..n] == payload[..n]
  {
    if k != 0 {
      HeldPrefix(data, payload, a, k - 1);
      var o, c := (k - 1) * CHUNK_SIZE, a.parts[k - 1];
      assert data[o..o + |c|] == payload[o..o + |c|];
      assert data[..o + |c|] == data[..o] + data[o..o + |c|];
      assert payload[..o + |c|] == payload[..o] + payload[o..o + |c|];
    }
  }

  /** A completed assembly of genuine fragments delivers exactly the payload: no stale byte of a reused slot
      gets through. */
  lemma DeliveryIsExact(m: Message, k: Key, a: Assembly, payload: Bytes)
    requires |payload| <= MAX_APP_PAYLOAD && PartOf(a, payload) && Complete(a) && Delivers(m, k, a)
    ensures m.data == payload
  {
    HeldPrefix(m.data, payload, a, a.fragCount);
    assert m.data[..|payload|] == m.data && payload[..|payload|] == payload;
  }

  // ---------- Fragments in any order, with repeats, evictions and time-outs, among other messages ----------

  datatype Event =
    | Arrive(f: Incoming, victim: Option<Key>, now: nat)
    | Expire(nowMs: U32, timeoutMs: U32)

  function After(t: Table, e: Event): Table {
    match e
    case Arrive(f, victim, now) => Pushed(Evicted(t, victim), f, now)
    case Expire(nowMs, timeoutMs) => Unexpired(t, nowMs, timeoutMs)
  }

  function AfterAll(t: Table, es: seq<Event>): Table {
    if es == [] then t else After(AfterAll(t, es[..|es| - 1]), es[|es| - 1])
  }

  /** The fragment indices of a message that have arrived since it was last absent from the table. */
  function Gathered(t: Table, es: seq<Event>, key: Key): set<nat> {
    if es == [] then {}
    else
      var e := es[|es| - 1];
      if key !in AfterAll(t, es) then {}
      else
        (if e.Arrive? && e.victim == Some(key) then {} else Gathered(t, es[..|es| - 1], key))
        + if e.Arrive? && e.f.key == key then {e.f.fragIndex} else {}
  }

  ghost predicate Covered(indices: set<nat>, payload: Bytes) {
    forall i: nat :: i < FragmentCount(|payload|) ==> i in indices
  }

  ghost predicate GenuineFor(es: seq<Event>, key: Key, payload: Bytes) {
    forall i :: 0 <= i < |es| && es[i].Arrive? && es[i].f.key == key ==> IsFragmentOf(es[i].f, payload)
  }

  lemma GenuineAdmissible(f: Incoming, payload: Bytes)
    requires IsFragmentOf(f, payload)
    ensures Admissible(f) && |payload| <= MAX_APP_PAYLOAD
  {
  }

  /** The table keeps exactly the fragments of the payload whose indices are given. */
  ghost predicate Keeps(t: Table, key: Key, payload: Bytes, indices: set<nat>) {
    && (key in t <==> indices != {})
    && (key in t ==> PartOf(t[key], payload) && t[key].parts.Keys == indices)
  }

  lemma PushGenuine(t: Table, f: Incoming, now: nat, payload: Bytes, indices: set<nat>)
    requires Keeps(t, f.key, payload, indices) && IsFragmentOf(f, payload) && !Covered(indices, payload)
    ensures Completed(t, f, now).Some? <==> Covered(indices + {f.fragIndex}, payload)
    ensures Completed(t, f, now).Some? ==>
              PartOf(Completed(t, f, now).value, payload) && Complete(Completed(t, f, now).value)
    ensures Completed(t, f, now).None? ==> Keeps(Pushed(t, f, now), f.key, payload, indices + {f.fragIndex})
  {
    GenuineAdmissible(f, payload);
    hide Admissible, FragmentSlice, FragmentCount;
    var a := Joined(t, f, now);
    assert a.parts.Keys == indices && PartOf(a, payload);
    if f.fragIndex in indices {
      assert indices + {f.fragIndex} == indices;
    } else {
      var b := a.(parts := a.parts[f.fragIndex := f.chunk], at := now);
      assert b.parts.Keys == indices + {f.fragIndex} && PartOf(b, payload);
      assert Complete(b) <==> Covered(indices + {f.fragIndex}, payload);
    }
  }

  lemma EvictedKeeps(t: Table, victim: Option<Key>, key: Key, payload: Bytes, indices: set<nat>)
    requires Keeps(t, key, payload, indices)
    ensures Keeps(Evicted(t, victim), key, payload, if victim == Some(key) then {} else indices)
  {
    hide PartOf;
  }

  lemma OtherPushKeeps(t: Table, f: Incoming, now: nat, key: Key, payload: Bytes, indices: set<nat>)
    requires Keeps(t, key, payload, indices) && f.key != key
    ensures Keeps(Pushed(t, f, now), key, payload, indices)
  {
    hide PartOf, Admissible;
  }

  lemma CompletedLeaves(t: Table, f: Incoming, now: nat)
    ensures Completed(t, f, now).Some? ==> f.key !in Pushed(t, f, now)
  {
    hide Admissible;
  }

  lemma ArrivalKeeps(t: Table, f: Incoming, victim: Option<Key>, now: nat, key: Key, payload: Bytes, indices: set<nat>)
    requires Keeps(t, key, payload, indices) && !Covered(indices, payload) && |payload| <= MAX_APP_PAYLOAD
    requires f.key == key ==> IsFragmentOf(f, payload)
    ensures var t' := After(t, Arrive(f, victim, now));
      var more := (if victim == Some(key) then {} else indices) + if f.key == key then {f.fragIndex} else {};
      var left := if key in t' then more else {};
      Keeps(t', key, payload, left) && !Covered(left, payload)
  {
    var kept := if victim == Some(key) then {} else indices;
    EvictedKeeps(t, victim, key, payload, indices);
    NothingCovers(payload);
    hide Pushed, Completed, Evicted, Covered;
    if f.key == key {
      PushGenuine(Evicted(t, victim), f, now, payload, kept);
      CompletedLeaves(Evicted(t, victim), f, now);
    } else {
      OtherPushKeeps(Evicted(t, victim), f, now, key, payload, kept);
      assert kept + {} == kept;
    }
  }

  lemma NothingCovers(payload: Bytes)
    requires |payload| <= MAX_APP_PAYLOAD
    ensures !Covered({}, payload)
  {
    var none: set<nat> := {};
    assert 0 < FragmentCount(|payload|) && 0 !in none;
  }

  lemma ExpiryKeeps(t: Table, nowMs: U32, timeoutMs: U32, key: Key, payload: Bytes, indices: set<nat>)
    requires Keeps(t, key, payload, indices)
    ensures var t' := Unexpired(t, nowMs, timeoutMs);
      Keeps(t', key, payload, if key in t' then indices else {})
  {
    hide PartOf;
  }

  /** The table keeps exactly the fragments of a message that have arrived since it was last absent, whatever else
      arrives, is evicted or times out between them. */
  lemma {:induction false} TableAccumulates(t: Table, es: seq<Event>, key: Key, payload: Bytes)
    requires key !in t && GenuineFor(es, key, payload) && |payload| <= MAX_APP_PAYLOAD
    ensures Keeps(AfterAll(t, es), key, payload, Gathered(t, es, key))
    ensures !Covered(Gathered(t, es, key), payload)
  {
    if es == [] {
      NothingCovers(payload);
    } else {
      var front, e := es[..|es| - 1], es[|es| - 1];
      TableAccumulates(t, front, key, payload);
      var before, indices := AfterAll(t, front), Gathered(t, front, key);
      var t' := After(before, e);
      assert AfterAll(t, es) == t';
      NothingCovers(payload);
      match e
      case Arrive(f, victim, now) =>
        var more := (if victim == Some(key) then {} else indices) + if f.key == key then {f.fragIndex} else {};
        assert Gathered(t, es, key) == if key in t' then more else {};
        hide Keeps, Covered, After, AfterAll, Gathered, IsFragmentOf;
        ArrivalKeeps(before, f, victim, now, key, payload, indices);
      case Expire(nowMs, timeoutMs) =>
        assert indices + {} == indices;
        assert Gathered(t, es, key) == if key in t' then indices else {};
        hide Keeps, Covered, AfterAll, Gathered, Unexpired;
        ExpiryKeeps(before, nowMs, timeoutMs, key, payload, indices);
    }
  }

  /** In every run of pushes, evictions and time-outs, a message comes out exactly on the arrival of the last fragment
      missing since it was last absent from the table, and then it is the payload. */
  lemma EmitsOnLastMissing(t: Table, es: seq<Event>, f: Incoming, victim: Option<Key>, now: nat, payload: Bytes,
                           m: Message)
    requires f.key !in t && GenuineFor(es, f.key, payload) && IsFragmentOf(f, payload) && victim != Some(f.key)
    ensures var done := Completed(Evicted(AfterAll(t, es), victim), f, now);
      && (done.Some? <==> Covered(Gathered(t, es, f.key) + {f.fragIndex}, payload))
      && (done.Some? && Delivers(m, f.key, done.value) ==> m.data == payload)
  {
    GenuineAdmissible(f, payload);
    TableAccumulates(t, es, f.key, payload);
    EvictedKeeps(AfterAll(t, es), victim, f.key, payload, Gathered(t, es, f.key));
    hide Completed, AfterAll, Gathered, Admissible, Keeps, Evicted;
    var t1 := Evicted(AfterAll(t, es), victim);
    PushGenuine(t1, f, now, payload, Gathered(t, es, f.key));
    var done := Completed(t1, f, now);
    if done.Some? && Delivers(m, f.key, done.value) {
      DeliveryIsExact(m, f.key, done.value, payload);
    }
  }
}
