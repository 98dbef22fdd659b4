/** What a receiver of genuine reliable packets restores: the sender's bytes or nothing, once per completion window. */
module ReliableDeliveries {
  import opened Wrappers
  import opened Counting
  import opened ReliableCodec
  import opened ShardRecovery
  import opened ReliableSessions

  // ---------- Genuine packets ----------

  /** The payload is one that the sender of `raw` makes under profile q. */
  ghost predicate GenuinePayload(p: Payload, raw: Bytes, q: Profile)
    requires q.Valid() && |raw| <= q.MaxPayloadBytes()
  {
    match p.kind
    case Start => p.meta == Meta(Some(q.profileId), Some(|raw|), Some(q.dataShards))
    case End => p.meta == Meta(None, Some(|raw|), Some(q.dataShards))
    case _ => p.meta == NO_META && 0 <= p.index < q.TotalShards() && p.data == Some(Encodes(Coded(raw, q, p.index)))
  }

  predicate Known(q: Profile) { GetProfile(q.profileId) == Ok(q) }

  /** Every start, chunk and end of a message, and every repair of one of its shards, is genuine. */
  lemma SentIsGenuine(id: string, src: string, raw: Bytes, q: Profile, kind: Kind, i: nat)
    requires Known(q) && |raw| <= MAX_RELIABLE && i < q.TotalShards() && (kind == Chunk || kind == Repair)
    ensures |raw| <= q.MaxPayloadBytes()
    ensures GenuinePayload(StartOf(id, src, raw, q), raw, q) && GenuinePayload(EndOf(id, src, raw, q), raw, q)
    ensures GenuinePayload(ShardOf(kind, id, src, i, Coded(raw, q, i)), raw, q)
  {
    hide Coded;
  }

  // ---------- The assumed profile ----------

  predicate SameShape(p: Profile, q: Profile) { p.dataShards == q.dataShards && p.shardSize == q.shardSize }

  /** A shard depends on its index and not on how many parity shards the profile has, so a lost start does no harm. */
  lemma CodedAgrees(raw: Bytes, p: Profile, q: Profile, i: nat)
    requires p.Valid() && q.Valid() && SameShape(p, q) && |raw| <= p.MaxPayloadBytes()
    requires i < p.TotalShards() && i < q.TotalShards()
    ensures Coded(raw, p, i) == Coded(raw, q, i)
  {
    SameData(raw, p, q);
    hide DataShards;
    assert GeneratorRow(i, p) == GeneratorRow(i, q);
    hide GeneratorRow;
  }

  lemma SameData(raw: Bytes, p: Profile, q: Profile)
    requires SameShape(p, q) && |raw| <= p.MaxPayloadBytes()
    ensures DataShards(raw, p) == DataShards(raw, q)
  {
  }

  /** The profile a session is decoded with: that of its start, or profile 0 while no start has been seen. */
  function Assumed(s: Session): (p: Profile)
    ensures p.Valid() && SameShape(p, PROFILE_25_8)
  {
    if s.profileId == 1 then PROFILE_25_10 else PROFILE_25_8
  }

  /** A session made of genuine payloads. */
  ghost predicate Holds(s: Session, raw: Bytes, q: Profile)
    requires q.Valid() && |raw| <= q.MaxPayloadBytes()
  {
    && (s.profileId == 0 || s.profileId == q.profileId) && (s.startReceived ==> s.profileId == q.profileId)
    && (s.startReceived || s.endReceived ==> s.size == |raw| && s.dataShards == q.dataShards)
    && HoldsShards(s.shards, raw, q)
  }

  ghost predicate HoldsShards(shards: map<nat, Encoded>, raw: Bytes, q: Profile)
    requires q.Valid() && |raw| <= q.MaxPayloadBytes()
  {
    forall i :: i in shards ==> i < q.TotalShards() && shards[i] == Encodes(Coded(raw, q, i))
  }

  lemma UpdatedHolds(s: Session, p: Payload, now: nat, raw: Bytes, q: Profile)
    requires Known(q) && |raw| <= q.MaxPayloadBytes() && Holds(s, raw, q) && GenuinePayload(p, raw, q)
    ensures Holds(Updated(s, p, now), raw, q)
    ensures Decide(Updated(s, p, now), p).Finalize? ==>
              Updated(s, p, now).startReceived || Updated(s, p, now).endReceived
  {
    hide Coded;
  }

  // ---------- Decoding a genuine session ----------

  lemma UsableIsGenuine(shards: map<nat, Encoded>, raw: Bytes, p: Profile, q: Profile)
    requires p.Valid() && q.Valid() && SameShape(p, q) && |raw| <= q.MaxPayloadBytes() && HoldsShards(shards, raw, q)
    ensures Genuine(Usable(shards, p), raw, p) && Usable(shards, p).Keys == shards.Keys
  {
    forall i: nat | i < p.TotalShards() && i in Usable(shards, p)
      ensures Usable(shards, p)[i] == Coded(raw, p, i)
    {
      CodedAgrees(raw, p, q, i);
    }
    hide CodedShard, DataShards;
  }

  /** Decoding a genuine session yields the sent bytes, or nothing: the bytes exactly when its shards are recoverable
      in the assumed profile. */
  lemma RestoresExactly(s: Session, raw: Bytes, q: Profile, r: Option<Bytes>)
    requires Known(q) && |raw| <= q.MaxPayloadBytes() && Holds(s, raw, q) && (s.startReceived || s.endReceived)
    requires RestoresTo(s.shards, s.profileId, s.size, r)
    ensures r == if Recoverable(s.shards.Keys, Assumed(s)) then Some(raw) else None
  {
    var p := Assumed(s);
    assert GetProfile(s.profileId) == Ok(p);
    UsableIsGenuine(s.shards, raw, p, q);
    hide Genuine, Usable, Recoverable, DecodesTo;
    var d :| DecodesTo(Usable(s.shards, p), p, s.size, d) && r == if d.Ok? then d.value else None;
    DecodingIsSound(raw, Usable(s.shards, p), p, d);
  }

  /** A request lists exactly the indices of the assumed profile that have not arrived. */
  lemma NackListsAbsent(s: Session, raw: Bytes, q: Profile)
    requires Known(q) && |raw| <= q.MaxPayloadBytes() && Holds(s, raw, q)
    ensures forall x: nat :: x in MissingOf(s.shards, s.profileId) <==> x < Assumed(s).TotalShards() && x !in s.shards
    ensures Ascending(MissingOf(s.shards, s.profileId))
  {
    hide Coded, MissingShardIndexes;
  }

  // ---------- One payload ----------

  ghost predicate HoldsIn(sessions: map<string, Session>, id: string, raw: Bytes, q: Profile)
    requires q.Valid() && |raw| <= q.MaxPayloadBytes()
  {
    id in sessions ==> Holds(sessions[id], raw, q)
  }

  lemma RoomKeeps(sessions: map<string, Session>, incoming: string, room: map<string, Session>, id: string)
    requires MakesRoom(sessions, incoming, room)
    ensures id in room ==> id in sessions && room[id] == sessions[id]
    ensures id == incoming && id in sessions ==> id in room
  {
  }

  lemma TouchedHolds(room: map<string, Session>, p: Payload, now: nat, raw: Bytes, q: Profile)
    requires Known(q) && |raw| <= q.MaxPayloadBytes() && HoldsIn(room, p.id, raw, q) && GenuinePayload(p, raw, q)
    ensures Holds(Touched(room, p, now), raw, q)
    ensures Decide(Touched(room, p, now), p).Finalize? ==>
              Touched(room, p, now).startReceived || Touched(room, p, now).endReceived
  {
    UpdatedHolds(if p.id in room then room[p.id] else NewSession(p.src, now), p, now, raw, q);
    hide GenuinePayload, Updated, Decide, Coded;
  }

  ghost predicate Closed(r: Receiver, r': Receiver, room: map<string, Session>, id: string, now: nat, raw: Bytes) {
    r' == r.(shown := r.shown + [Shown(id, raw)], sessions := room - {id}, completed := r.completed[id := now])
  }

  /** The missing shards are requested if the link takes the request and the last one is at least 500 ms
      ago; the session stays in any case. */
  ghost predicate Requested(r: Receiver, r': Receiver, room: map<string, Session>, id: string, s: Session, now: nat,
                            linkTakes: bool, missing: seq<nat>) {
    if linkTakes && now - s.lastNack >= 500 then
      r' == r.(nacks := r.nacks + [Nack(id, s.src, missing)],
               sessions := room[id := s.(lastNack := now, lastUpdate := now)])
    else r' == r.(sessions := room[id := s])
  }

  /** What one genuine payload does to its session, in terms of the session it finds or opens: keep it; show exactly the
      sent bytes if its shards are recoverable; request exactly the absent shards; or give up. */
  ghost predicate Outcome(r: Receiver, r': Receiver, room: map<string, Session>, p: Payload, now: nat, linkTakes: bool,
                          raw: Bytes) {
    var s := Touched(room, p, now);
    match Decide(s, p)
    case Keep => r' == r.(sessions := room[p.id := s])
    case Finalize(allowNack) =>
      var missing := MissingOf(s.shards, s.profileId);
      if Recoverable(s.shards.Keys, Assumed(s)) then Closed(r, r', room, p.id, now, raw)
      else if allowNack && s.src != "" && missing != [] then Requested(r, r', room, p.id, s, now, linkTakes, missing)
      else r' == r.(sessions := room - {p.id})
  }

  lemma FinalizedCases(r: Receiver, room: map<string, Session>, id: string, s: Session, allowNack: bool, now: nat,
                       restored: Option<Bytes>, linkTakes: bool)
    ensures var r' := Finalized(r.(sessions := room[id := s]), id, allowNack, now, restored, linkTakes);
      var missing := MissingOf(s.shards, s.profileId);
      if restored.Some? then Closed(r, r', room, id, now, restored.value)
      else if allowNack && s.src != "" && missing != [] then Requested(r, r', room, id, s, now, linkTakes, missing)
      else r' == r.(sessions := room - {id})
  {
    hide MissingOf;
    assert room[id := s] - {id} == room - {id};
    assert room[id := s][id := s.(lastNack := now, lastUpdate := now)]
           == room[id := s.(lastNack := now, lastUpdate := now)];
  }

  lemma OutcomeOfPayload(r: Receiver, room: map<string, Session>, p: Payload, now: nat, linkTakes: bool, r': Receiver,
                         raw: Bytes, q: Profile)
    requires Known(q) && |raw| <= q.MaxPayloadBytes() && HoldsIn(room, p.id, raw, q) && GenuinePayload(p, raw, q)
    requires HandlesIn(r, room, p, now, linkTakes, r')
    ensures Outcome(r, r', room, p, now, linkTakes, raw)
  {
    TouchedHolds(room, p, now, raw, q);
    var s := Touched(room, p, now);
    hide Holds, GenuinePayload, Touched, Decide, Recoverable, RestoresTo, MissingOf, Assumed, Finalized, Closed,
         Requested, Known;
    if Decide(s, p).Finalize? {
      var restored :| RestoresTo(s.shards, s.profileId, s.size, restored)
        && r' == Finalized(r.(sessions := room[p.id := s]), p.id, Decide(s, p).allowNack, now, restored, linkTakes);
      RestoresExactly(s, raw, q, restored);
      FinalizedCases(r, room, p.id, s, Decide(s, p).allowNack, now, restored, linkTakes);
    }
  }

  lemma OutcomeHolds(r: Receiver, room: map<string, Session>, p: Payload, now: nat, linkTakes: bool, r': Receiver,
                     raw: Bytes, q: Profile)
    requires Known(q) && |raw| <= q.MaxPayloadBytes() && HoldsIn(room, p.id, raw, q) && GenuinePayload(p, raw, q)
    requires HandlesIn(r, room, p, now, linkTakes, r')
    ensures HoldsIn(r'.sessions, p.id, raw, q)
  {
    TouchedHolds(room, p, now, raw, q);
    hide GenuinePayload, Touched, Decide, RestoresTo, MissingOf, HoldsShards;
  }

  predicate CarriesShard(p: Payload) { p.kind == Chunk || p.kind == Repair }

  /** The finding behind the choice of profiles: 25 shards are not always enough, and a session that has its start but
      not yet its end is given up, with all its shards, the moment it holds as many shards as the data has without
      being recoverable. */
  lemma GivenUpBeforeEnd(r: Receiver, room: map<string, Session>, p: Payload, now: nat, linkTakes: bool, r': Receiver,
                         raw: Bytes, q: Profile)
    requires Known(q) && |raw| <= q.MaxPayloadBytes() && HoldsIn(room, p.id, raw, q) && GenuinePayload(p, raw, q)
    requires HandlesIn(r, room, p, now, linkTakes, r') && CarriesShard(p)
    requires var s := Touched(room, p, now); s.startReceived && !s.endReceived && |s.shards| >= q.dataShards
    ensures p.id !in r'.sessions
    ensures r'.shown == r.shown <==> !Recoverable(Touched(room, p, now).shards.Keys, Assumed(Touched(room, p, now)))
  {
    TouchedHolds(room, p, now, raw, q);
    OutcomeOfPayload(r, room, p, now, linkTakes, r', raw, q);
    CodedNotEmpty(raw, q, p);
    hide Recoverable, Touched, MissingOf, HoldsShards, HandlesIn, Assumed, Coded, Known;
    var s := Touched(room, p, now);
    assert Decide(s, p) == Finalize(false);
  }

  /** Such a loss in the default profile: data shards 0 and 17 and all parity shards but 31 and 32. */
  lemma LossThatGivesUp(r: Receiver, room: map<string, Session>, p: Payload, now: nat, linkTakes: bool, r': Receiver,
                        raw: Bytes)
    requires |raw| <= MAX_RELIABLE && HoldsIn(room, p.id, raw, PROFILE_25_8) && GenuinePayload(p, raw, PROFILE_25_8)
    requires HandlesIn(r, room, p, now, linkTakes, r') && CarriesShard(p)
    requires var s := Touched(room, p, now);
      s.startReceived && !s.endReceived && s.shards.Keys == AllBut({0, 17, 25, 26, 27, 28, 29, 30}, PROFILE_25_8)
    ensures p.id !in r'.sessions && r'.shown == r.shown
  {
    var s := Touched(room, p, now);
    TouchedHolds(room, p, now, raw, PROFILE_25_8);
    DefaultProfileNotMds();
    hide Touched, Holds, AllBut, Recoverable, HandlesIn, Available, GenuinePayload;
    AvailableSize(s.shards.Keys, 33);
    assert s.profileId == 0 by { StartTellsProfile(s, raw, PROFILE_25_8); }
    GivenUpBeforeEnd(r, room, p, now, linkTakes, r', raw, PROFILE_25_8);
  }

  lemma StartTellsProfile(s: Session, raw: Bytes, q: Profile)
    requires q.Valid() && |raw| <= q.MaxPayloadBytes() && Holds(s, raw, q) && s.startReceived
    ensures s.profileId == q.profileId
  {
    hide HoldsShards;
  }

  lemma CodedNotEmpty(raw: Bytes, q: Profile, p: Payload)
    requires Known(q) && |raw| <= q.MaxPayloadBytes() && GenuinePayload(p, raw, q) && CarriesShard(p)
    ensures HasShard(p)
  {
    hide Coded;
  }

  // ---------- When a recoverable session is shown ----------

  /** The payloads that make a receiver try to decode: an end; a shard between start and end; and a repair after the
      end. */
  predicate Tries(s: Session, p: Payload) {
    p.kind == End || (CarriesShard(p) && s.startReceived && !s.endReceived) || (p.kind == Repair && s.endReceived)
  }

  /** A genuine payload has the message shown exactly when the session is recoverable with it and it makes the receiver
      try. */
  lemma ShownWhenTried(r: Receiver, room: map<string, Session>, p: Payload, now: nat, linkTakes: bool, r': Receiver,
                       raw: Bytes, q: Profile)
    requires Known(q) && |raw| <= q.MaxPayloadBytes() && HoldsIn(room, p.id, raw, q) && GenuinePayload(p, raw, q)
    requires HandlesIn(r, room, p, now, linkTakes, r')
    ensures var s := Touched(room, p, now);
      r'.shown != r.shown <==> Recoverable(s.shards.Keys, Assumed(s)) && Tries(s, p)
  {
    var s := Touched(room, p, now);
    TouchedHolds(room, p, now, raw, q);
    OutcomeOfPayload(r, room, p, now, linkTakes, r', raw, q);
    if CarriesShard(p) {
      CodedNotEmpty(raw, q, p);
    }
    AvailableSize(s.shards.Keys, Assumed(s).TotalShards());
    assert s.startReceived ==> s.dataShards == Assumed(s).dataShards by { hide HoldsShards; }
    hide Holds, Touched, MissingOf, HandlesIn, Assumed, Available, HasShard, GenuinePayload;
  }

  /** A chunk that arrives after the end is kept, and nothing else happens. */
  lemma LateChunkKept(r: Receiver, room: map<string, Session>, p: Payload, now: nat, linkTakes: bool, r': Receiver)
    requires HandlesIn(r, room, p, now, linkTakes, r') && p.kind == Chunk && Touched(room, p, now).endReceived
    ensures r' == r.(sessions := room[p.id := Touched(room, p, now)])
  {
    hide Touched, HasShard;
  }

  /** So a session that a late chunk makes recoverable times out, with nothing shown, if nothing more of it arrives. */
  lemma RecoverableTimesOut(r: Receiver, room: map<string, Session>, p: Payload, now: nat, linkTakes: bool,
                            r': Receiver, later: nat)
    requires HandlesIn(r, room, p, now, linkTakes, r') && p.kind == Chunk && Touched(room, p, now).endReceived
    requires HasShard(p) && later > now + SESSION_TIMEOUT
    ensures p.id !in Pruned(r', later).sessions && Pruned(r', later).shown == r.shown
            && Pruned(r', later).nacks == r.nacks
  {
    LateChunkKept(r, room, p, now, linkTakes, r');
    hide Touched, HandlesIn;
  }

  /** Nothing happened to a session but its eviction, and nothing was shown under its id. */
  ghost predicate Untouched(r: Receiver, r': Receiver, id: string) {
    && (id in r'.sessions ==> id in r.sessions && r'.sessions[id] == r.sessions[id])
    && (id in r'.completed <==> id in r.completed) && (id in r.completed ==> r'.completed[id] == r.completed[id])
    && (r'.shown == r.shown || exists x: Shown :: x.id != id && r'.shown == r.shown + [x])
  }

  lemma HandlesInOther(r: Receiver, room: map<string, Session>, p: Payload, now: nat, linkTakes: bool, r': Receiver,
                       id: string)
    requires HandlesIn(r, room, p, now, linkTakes, r') && p.id != id
    requires id in room ==> id in r.sessions && room[id] == r.sessions[id]
    ensures Untouched(r, r', id)
  {
    var s := Touched(room, p, now);
    hide Touched, Decide, RestoresTo, MissingOf, Finalized;
    if Decide(s, p).Finalize? {
      var restored :| RestoresTo(s.shards, s.profileId, s.size, restored)
        && r' == Finalized(r.(sessions := room[p.id := s]), p.id, Decide(s, p).allowNack, now, restored, linkTakes);
      FinalizedCases(r, room, p.id, s, Decide(s, p).allowNack, now, restored, linkTakes);
      if restored.Some? {
        assert Shown(p.id, restored.value).id != id;
      }
    }
  }

  /** Other payloads leave a session alone or evict it. */
  lemma OtherPayload(r: Receiver, p: Payload, now: nat, linkTakes: bool, r': Receiver, id: string)
    requires Handles(r, p, now, linkTakes, r') && p.id != id
    ensures Untouched(r, r', id)
  {
    hide HandlesIn;
    if !Ignored(r, p, now) {
      var room :| MakesRoom(r.sessions, p.id, room) && HandlesIn(r, room, p, now, linkTakes, r');
      RoomKeeps(r.sessions, p.id, room, id);
      hide Untouched;
      HandlesInOther(r, room, p, now, linkTakes, r', id);
    }
  }

  // ---------- Shards that cannot be used ----------

  /** A shard that arrived garbled cannot be used and is not asked for either. */
  lemma GarbledNotRequested(shards: map<nat, Encoded>, p: Profile, x: nat)
    requires p.Valid() && Known(p) && x in shards && shards[x] == Garbled
    ensures x !in Usable(shards, p) && x !in MissingOf(shards, p.profileId)
  {
    hide MissingShardIndexes;
  }

  /** A request covers every shard that cannot be used exactly when all that arrived have a
      text form and the right size. */
  lemma RequestCoversUnusable(shards: map<nat, Encoded>, p: Profile)
    requires p.Valid() && Known(p)
    ensures (forall x: nat :: x < p.TotalShards() && x !in Usable(shards, p) ==> x in MissingOf(shards, p.profileId))
            <==> forall x: nat :: x < p.TotalShards() && x in shards ==>
                   shards[x].Encodes? && |shards[x].bytes| == p.shardSize
  {
    hide MissingShardIndexes;
    forall x: nat | x < p.TotalShards() && x in shards
      ensures x !in MissingOf(shards, p.profileId)
      ensures x in Usable(shards, p) <==> shards[x].Encodes? && |shards[x].bytes| == p.shardSize
    {
    }
  }

  /** An end that finds every index present, whatever the shards are, closes the session without any request: something
      is shown if the usable shards are recoverable, and nothing otherwise. */
  lemma NothingAbsentAtEnd(r: Receiver, room: map<string, Session>, p: Payload, now: nat, linkTakes: bool, r': Receiver)
    requires HandlesIn(r, room, p, now, linkTakes, r') && p.kind == End
    requires var s := Touched(room, p, now);
      GetProfile(s.profileId).Ok? && s.size <= GetProfile(s.profileId).value.MaxPayloadBytes()
      && MissingOf(s.shards, s.profileId) == []
    ensures p.id !in r'.sessions && r'.nacks == r.nacks
    ensures var s := Touched(room, p, now);
      var q := GetProfile(s.profileId).value;
      r'.shown != r.shown <==> Recoverable(Usable(s.shards, q).Keys, q)
  {
    var s := Touched(room, p, now);
    hide Touched, MissingOf, Recoverable, RestoresTo, Finalized, Usable;
    var restored :| RestoresTo(s.shards, s.profileId, s.size, restored)
      && r' == Finalized(r.(sessions := room[p.id := s]), p.id, true, now, restored, linkTakes);
    FinalizedCases(r, room, p.id, s, true, now, restored, linkTakes);
    RestoresUsable(s.shards, s.profileId, s.size, restored);
  }

  /** Anything is restored exactly when the usable shards are recoverable. */
  lemma RestoresUsable(shards: map<nat, Encoded>, profileId: nat, size: nat, r: Option<Bytes>)
    requires RestoresTo(shards, profileId, size, r) && GetProfile(profileId).Ok?
    requires size <= GetProfile(profileId).value.MaxPayloadBytes()
    ensures var q := GetProfile(profileId).value; r.Some? <==> Recoverable(Usable(shards, q).Keys, q)
  {
    hide Recoverable, Selected, Explains;
  }

  /** So garbling more shards than the profile has parity loses the message, although nothing is asked for again. */
  lemma GarbledSessionGivenUp(r: Receiver, room: map<string, Session>, p: Payload, now: nat, linkTakes: bool,
                              r': Receiver, garbled: set<nat>)
    requires HandlesIn(r, room, p, now, linkTakes, r') && p.kind == End
    requires var s := Touched(room, p, now);
      s.profileId == 0 && s.size <= MAX_RELIABLE && forall i: nat :: i in s.shards <==> i < PROFILE_25_8.TotalShards()
    requires |garbled| > PROFILE_25_8.parityShards
    requires forall x :: x in garbled ==> x < PROFILE_25_8.TotalShards() && Touched(room, p, now).shards[x] == Garbled
    ensures p.id !in r'.sessions && r'.shown == r.shown && r'.nacks == r.nacks
  {
    var s := Touched(room, p, now);
    assert MissingOf(s.shards, s.profileId) == [] by { NothingMissing(s.shards, PROFILE_25_8); }
    hide Touched, MissingOf, HandlesIn;
    NothingAbsentAtEnd(r, room, p, now, linkTakes, r');
    TooManyGarbled(s.shards, PROFILE_25_8, garbled);
    hide Recoverable, Usable;
  }

  lemma NothingMissing(shards: map<nat, Encoded>, p: Profile)
    requires Known(p) && forall i: nat :: i < p.TotalShards() ==> i in shards
    ensures MissingOf(shards, p.profileId) == []
  {
    hide MissingShardIndexes;
    var missing := MissingOf(shards, p.profileId);
    if missing != [] {
      SomeElement(missing);
    }
  }

  lemma SomeElement(s: seq<nat>)
    requires s != []
    ensures exists x: nat :: x in s
  {
    assert s[0] in s;
  }

  lemma TooManyGarbled(shards: map<nat, Encoded>, p: Profile, garbled: set<nat>)
    requires p.Valid() && |garbled| > p.parityShards
    requires forall x :: x in garbled ==> x < p.TotalShards() && x in shards && shards[x] == Garbled
    ensures !Recoverable(Usable(shards, p).Keys, p)
  {
    var keys, n := Usable(shards, p).Keys, p.TotalShards();
    AvailableIs(keys, n);
    var all: set<nat> := set i | i in shards && i < n;
    AllBelow(all, n);
    forall i | 0 <= i < |Available(keys, n)|
      ensures Available(keys, n)[i] in all - garbled
    {
      assert Available(keys, n)[i] in Available(keys, n);
    }
    hide Available, Usable, SelectedRows;
    DistinctSize(Available(keys, n), all - garbled);
    assert |all - garbled| == |all| - |garbled|;
  }

  // ---------- Whole runs ----------

  datatype Action = Hear(payload: Payload, at: nat, linkTakes: bool) | Age(at: nat)

  ghost predicate Step(r: Receiver, a: Action, r': Receiver) {
    match a
    case Hear(p, now, linkTakes) => Handles(r, p, now, linkTakes, r')
    case Age(now) => r' == Pruned(r, now)
  }

  /** A run from the empty state, with a clock that starts above zero and never goes back. */
  ghost predicate IsRun(states: seq<Receiver>, actions: seq<Action>) {
    && |states| == |actions| + 1 && states[0] == Receiver(map[], map[], [], [])
    && (forall i :: 0 <= i < |actions| ==> actions[i].at > 0 && Step(states[i], actions[i], states[i + 1]))
    && forall i, j :: 0 <= i < j < |actions| ==> actions[i].at <= actions[j].at
  }

  /** Packets with this id come from one message; everything else is arbitrary. */
  ghost predicate GenuineRun(actions: seq<Action>, id: string, raw: Bytes, q: Profile)
    requires q.Valid() && |raw| <= q.MaxPayloadBytes()
  {
    forall i :: 0 <= i < |actions| && actions[i].Hear? && actions[i].payload.id == id ==>
      GenuinePayload(actions[i].payload, raw, q)
  }

  ghost predicate ShownExactly(shown: seq<Shown>, id: string, raw: Bytes) {
    forall k :: 0 <= k < |shown| && shown[k].id == id ==> shown[k].data == raw
  }

  lemma OutcomeShows(r: Receiver, room: map<string, Session>, p: Payload, now: nat, linkTakes: bool, r': Receiver,
                     raw: Bytes)
    requires Outcome(r, r', room, p, now, linkTakes, raw)
    ensures || r'.shown == r.shown
            || (r'.shown == r.shown + [Shown(p.id, raw)] && r'.completed == r.completed[p.id := now])
    ensures r'.shown == r.shown ==> r'.completed == r.completed
  {
    hide Touched, Decide, MissingOf, Recoverable, Assumed;
  }

  lemma GenuineStep(r: Receiver, p: Payload, now: nat, linkTakes: bool, r': Receiver, raw: Bytes, q: Profile)
    requires Known(q) && |raw| <= q.MaxPayloadBytes() && HoldsIn(r.sessions, p.id, raw, q) && GenuinePayload(p, raw, q)
    requires Handles(r, p, now, linkTakes, r')
    ensures HoldsIn(r'.sessions, p.id, raw, q)
    ensures r'.shown == r.shown || r'.shown == r.shown + [Shown(p.id, raw)]
  {
    hide HandlesIn, Holds, GenuinePayload, Known, Outcome;
    if !Ignored(r, p, now) {
      var room :| MakesRoom(r.sessions, p.id, room) && HandlesIn(r, room, p, now, linkTakes, r');
      RoomKeeps(r.sessions, p.id, room, p.id);
      hide MakesRoom, Ignored;
      OutcomeOfPayload(r, room, p, now, linkTakes, r', raw, q);
      OutcomeHolds(r, room, p, now, linkTakes, r', raw, q);
      OutcomeShows(r, room, p, now, linkTakes, r', raw);
    }
  }

  /** In every run, whatever is lost, repeated and reordered and whatever else is received, everything shown under the
      id of a message is exactly its bytes. */
  lemma {:induction false} RestoresSentBytesOrNothing(states: seq<Receiver>, actions: seq<Action>, id: string,
                                                      raw: Bytes, q: Profile)
    requires Known(q) && |raw| <= q.MaxPayloadBytes() && IsRun(states, actions) && GenuineRun(actions, id, raw, q)
    ensures HoldsIn(states[|actions|].sessions, id, raw, q)
    ensures ShownExactly(states[|actions|].shown, id, raw)
  {
    hide Handles, Holds, GenuinePayload, Known;
    if actions != [] {
      var n := |actions| - 1;
      RestoresSentBytesOrNothing(states[..n + 1], actions[..n], id, raw, q);
      var r, a, r' := states[n], actions[n], states[n + 1];
      assert Step(r, a, r');
      if a.Hear? {
        if a.payload.id == id {
          GenuineStep(r, a.payload, a.at, a.linkTakes, r', raw, q);
        } else {
          OtherPayload(r, a.payload, a.at, a.linkTakes, r', id);
        }
      }
    }
  }

  // ---------- At most once per completion window ----------

  ghost predicate Shows(r: Receiver, r': Receiver, id: string) {
    exists data :: r'.shown == r.shown + [Shown(id, data)]
  }

  /** Showing is possible only outside the window of an earlier completion, and starts a new one. */
  lemma ShowingCompletes(r: Receiver, p: Payload, now: nat, linkTakes: bool, r': Receiver, id: string)
    requires Handles(r, p, now, linkTakes, r') && Shows(r, r', id)
    ensures p.id == id && id in r'.completed && r'.completed[id] == now
    ensures id in r.completed && r.completed[id] > 0 ==> now - r.completed[id] > SESSION_TIMEOUT
  {
    hide HandlesIn, MakesRoom;
    assert !Ignored(r, p, now);
    var room :| MakesRoom(r.sessions, p.id, room) && HandlesIn(r, room, p, now, linkTakes, r');
    ShowingCloses(r, room, p, now, linkTakes, r', id);
  }

  lemma ShowingCloses(r: Receiver, room: map<string, Session>, p: Payload, now: nat, linkTakes: bool, r': Receiver,
                      id: string)
    requires HandlesIn(r, room, p, now, linkTakes, r') && Shows(r, r', id)
    ensures p.id == id && id in r'.completed && r'.completed[id] == now
  {
    var data :| r'.shown == r.shown + [Shown(id, data)];
    assert r'.shown[|r.shown|] == Shown(id, data);
    hide Touched, Decide, MissingOf, RestoresTo;
  }

  /** A completion is remembered until its window is over. */
  ghost predicate Remembered(r: Receiver, id: string, at: nat, now: nat) {
    now > at + SESSION_TIMEOUT || (id in r.completed && at <= r.completed[id])
  }

  lemma CompletionStays(r: Receiver, room: map<string, Session>, p: Payload, now: nat, linkTakes: bool, r': Receiver,
                        id: string)
    requires HandlesIn(r, room, p, now, linkTakes, r')
    ensures id in r.completed ==> id in r'.completed && (r'.completed[id] == r.completed[id] || r'.completed[id] == now)
  {
    hide Touched, Decide, MissingOf, RestoresTo;
  }

  lemma StepRemembers(r: Receiver, a: Action, r': Receiver, id: string, at: nat, before: nat)
    requires Step(r, a, r') && Remembered(r, id, at, before) && at <= before <= a.at
    ensures Remembered(r', id, at, a.at)
  {
    if a.Hear? && !Ignored(r, a.payload, a.at) {
      var room :| MakesRoom(r.sessions, a.payload.id, room) && HandlesIn(r, room, a.payload, a.at, a.linkTakes, r');
      CompletionStays(r, room, a.payload, a.at, a.linkTakes, r', id);
    }
    hide HandlesIn, MakesRoom;
  }

  lemma {:induction false} RunRemembers(states: seq<Receiver>, actions: seq<Action>, id: string, i: nat, j: nat)
    requires IsRun(states, actions) && i <= j < |actions|
    requires Remembered(states[i + 1], id, actions[i].at, actions[i].at)
    ensures Remembered(states[j + 1], id, actions[i].at, actions[j].at)
    decreases j
  {
    hide Remembered, Step;
    if i < j {
      RunRemembers(states, actions, id, i, j - 1);
      StepRemembers(states[j], actions[j], states[j + 1], id, actions[i].at, actions[j - 1].at);
    }
  }

  /** Nothing is shown twice under one id within 30 s, whatever the packets are. */
  lemma ShownOncePerWindow(states: seq<Receiver>, actions: seq<Action>, id: string, i: nat, j: nat)
    requires IsRun(states, actions) && i < j < |actions|
    requires Shows(states[i], states[i + 1], id) && Shows(states[j], states[j + 1], id)
    ensures actions[j].at > actions[i].at + SESSION_TIMEOUT
  {
    hide IsRun, Step, Shows, Remembered;
    ShowingAt(states, actions, id, i);
    ShowingAt(states, actions, id, j);
    RunRemembers(states, actions, id, i, j - 1);
    StillRemembered(states, actions, id, i, j);
  }

  lemma ShowingAt(states: seq<Receiver>, actions: seq<Action>, id: string, i: nat)
    requires IsRun(states, actions) && i < |actions| && Shows(states[i], states[i + 1], id)
    ensures id in states[i].completed && states[i].completed[id] > 0 ==>
              actions[i].at - states[i].completed[id] > SESSION_TIMEOUT
    ensures Remembered(states[i + 1], id, actions[i].at, actions[i].at)
  {
    hide Handles, Shows;
    assert Step(states[i], actions[i], states[i + 1]);
    HearsToShow(states[i], actions[i], states[i + 1], id);
    ShowingCompletes(states[i], actions[i].payload, actions[i].at, actions[i].linkTakes, states[i + 1], id);
  }

  lemma StillRemembered(states: seq<Receiver>, actions: seq<Action>, id: string, i: nat, j: nat)
    requires IsRun(states, actions) && i < j < |actions|
    requires Remembered(states[j], id, actions[i].at, actions[j - 1].at)
    requires id in states[j].completed && states[j].completed[id] > 0 ==>
               actions[j].at - states[j].completed[id] > SESSION_TIMEOUT
    ensures actions[j].at > actions[i].at + SESSION_TIMEOUT
  {
    hide Step;
    assert actions[j - 1].at <= actions[j].at;
  }

  lemma HearsToShow(r: Receiver, a: Action, r': Receiver, id: string)
    requires Step(r, a, r') && Shows(r, r', id)
    ensures a.Hear?
  {
    hide Handles;
    var data :| r'.shown == r.shown + [Shown(id, data)];
    assert |r'.shown| == |r.shown| + 1;
  }
}
