/** The 1 KB reliable session: shards sent between a start and an end, repaired on request, restored at most once. */
module ReliableSessions {
  import opened Wrappers
  import opened GaloisTables
  import opened ReliableCodec
  import Interleaver

  const SESSION_TIMEOUT := 30000
  const MAX_SESSIONS := 24
  const NACK_GAP := 500
  const MAX_RELIABLE := 1000
  const STRIDE := 7

  /** The text form of a shard; not every text is one. */
  datatype Encoded = Garbled | Encodes(bytes: Bytes)

  datatype Kind = Start | Chunk | Repair | End

  /** Fields that are absent, unreadable or negative are None. */
  datatype Meta = Meta(profileId: Option<nat>, size: Option<nat>, dataShards: Option<nat>)

  datatype Payload = Payload(kind: Kind, id: string, src: string, meta: Meta, index: int, data: Option<Encoded>)

  const NO_META := Meta(None, None, None)

  // ---------- The sender ----------

  function StartOf(id: string, src: string, raw: Bytes, p: Profile): Payload {
    Payload(Start, id, src, Meta(Some(p.profileId), Some(|raw|), Some(p.dataShards)), -1, None)
  }

  /** The end repeats the size but does not say which profile was used. */
  function EndOf(id: string, src: string, raw: Bytes, p: Profile): Payload {
    Payload(End, id, src, Meta(None, Some(|raw|), Some(p.dataShards)), -1, None)
  }

  function ShardOf(kind: Kind, id: string, src: string, index: nat, shard: Bytes): Payload {
    Payload(kind, id, src, NO_META, index, Some(Encodes(shard)))
  }

  function Coded(raw: Bytes, p: Profile, i: nat): (shard: Bytes)
    requires p.Valid() && |raw| <= p.MaxPayloadBytes() && i < p.TotalShards()
    ensures |shard| == p.shardSize
  {
    CodedShard(DataShards(raw, p), i, p)
  }

  /** Some packet between the first and the last carries the shard. */
  ghost predicate Carries(packets: seq<Payload>, x: nat) { exists k :: 1 <= k < |packets| - 1 && packets[k].index == x }

  /** Start, every shard once in interleaved order, end. */
  method MakeMessages(t: Tables, raw: Bytes, id: string, src: string, profileId: int, interleave: bool)
    returns (r: Result<(seq<Payload>, seq<Bytes>), CodecError>)
    requires t.Built()
    ensures r.Err? <==> GetProfile(profileId).Err? || |raw| > MAX_RELIABLE
    ensures r.Ok? ==>
              var p := GetProfile(profileId).value;
              var (packets, shards) := r.value;
              && |packets| == p.TotalShards() + 2 && |shards| == p.TotalShards()
              && (forall i :: 0 <= i < |shards| ==> shards[i] == Coded(raw, p, i))
              && packets[0] == StartOf(id, src, raw, p) && packets[|packets| - 1] == EndOf(id, src, raw, p)
              && (forall k :: 1 <= k < |packets| - 1 ==>
                    && 0 <= packets[k].index < p.TotalShards()
                    && packets[k] == ShardOf(Chunk, id, src, packets[k].index, shards[packets[k].index]))
              && (forall x: nat :: x < p.TotalShards() ==> Carries(packets, x))
              && (forall k :: 1 <= k < |packets| - 1 ==>
                    packets[k].index
                    == if !interleave then k - 1 else if profileId == 0 then (k - 1) * 7 % 33 else (k - 1) * 8 % 35)
  {
    hide CodedShard, DataShards;
    var profile := GetProfile(profileId);
    if profile.Err? {
      return Err(UnsupportedProfile);
    }
    if |raw| > MAX_RELIABLE {
      return Err(PayloadTooLarge);
    }
    var p := profile.value;
    var shards := EncodeShards(t, raw, p);
    var order := WireOrder(p.TotalShards(), interleave);
    var packets := [StartOf(id, src, raw, p)];
    for k := 0 to |order|
      invariant |packets| == k + 1 && packets[0] == StartOf(id, src, raw, p)
      invariant forall j :: 1 <= j <= k ==>
                  packets[j] == ShardOf(Chunk, id, src, order[j - 1], shards.value[order[j - 1]])
    {
      packets := packets + [ShardOf(Chunk, id, src, order[k], shards.value[order[k]])];
    }
    packets := packets + [EndOf(id, src, raw, p)];
    forall x: nat | x < p.TotalShards()
      ensures Carries(packets, x)
    {
      assert x in order;
      var j :| 0 <= j < |order| && order[j] == x;
      assert packets[j + 1].index == x;
    }
    return Ok((packets, shards.value));
  }

  /** Seven is coprime to the 33 shards of the default profile, and eight is the next number coprime to 35. */
  lemma FirstSteps()
    ensures Interleaver.FirstCoprime(STRIDE, 33) == 7 && Interleaver.FirstCoprime(STRIDE, 35) == 8
  {
    assert Interleaver.Gcd(7, 33) == 1;
    assert Interleaver.Gcd(7, 35) == 7;
    assert Interleaver.Gcd(8, 35) == 1;
  }

  /** A permutation of the shard indices: multiples of the step in order, or each in turn. */
  method WireOrder(total: nat, interleave: bool) returns (order: seq<nat>)
    requires total > 1
    ensures |order| == total && forall x: nat :: x in order <==> x < total
    ensures forall i :: 0 <= i < total ==> order[i] < total
    ensures !interleave ==> forall i :: 0 <= i < total ==> order[i] == i
    ensures interleave && total == 33 ==> forall i :: 0 <= i < total ==> order[i] == i * 7 % 33
    ensures interleave && total == 35 ==> forall i :: 0 <= i < total ==> order[i] == i * 8 % 35
  {
    if interleave {
      order := Interleaver.InterleavedIndexes(total, STRIDE);
      FirstSteps();
      hide Interleaver.Gcd;
      Interleaver.StrideOrderPermutes(Interleaver.FirstCoprime(STRIDE, total), total);
    } else {
      order := seq(total, i requires 0 <= i => i);
      forall x: nat
        ensures x in order <==> x < total
      {
        assert x < total ==> order[x] == x;
      }
    }
    assert forall i :: 0 <= i < |order| ==> order[i] in order;
  }

  /** Answers a request: one repair for each listed index that exists. */
  method AnswerNack(shards: seq<Bytes>, id: string, src: string, missing: seq<int>) returns (repairs: seq<Payload>)
    ensures forall k :: 0 <= k < |repairs| ==>
              && 0 <= repairs[k].index < |shards| && repairs[k].index in missing
              && repairs[k] == ShardOf(Repair, id, src, repairs[k].index, shards[repairs[k].index])
    ensures forall x :: x in missing && 0 <= x < |shards| ==> Repaired(repairs, x)
    ensures forall j, k :: 0 <= j < k < |repairs| ==> repairs[j].index != repairs[k].index
  {
    repairs := [];
    var done: set<int> := {};
    for m := 0 to |missing|
      invariant forall k :: 0 <= k < |repairs| ==>
                  && 0 <= repairs[k].index < |shards| && repairs[k].index in missing && repairs[k].index in done
                  && repairs[k] == ShardOf(Repair, id, src, repairs[k].index, shards[repairs[k].index])
      invariant forall j, k :: 0 <= j < k < |repairs| ==> repairs[j].index != repairs[k].index
      invariant forall x :: x in done ==> Repaired(repairs, x)
      invariant forall j :: 0 <= j < m && 0 <= missing[j] < |shards| ==> missing[j] in done
    {
      var x := missing[m];
      if 0 <= x < |shards| && x !in done {
        RepairedMore(repairs, ShardOf(Repair, id, src, x, shards[x]));
        repairs := repairs + [ShardOf(Repair, id, src, x, shards[x])];
        done := done + {x};
      }
    }
  }

  ghost predicate Repaired(repairs: seq<Payload>, x: int) { exists k :: 0 <= k < |repairs| && repairs[k].index == x }

  lemma RepairedMore(repairs: seq<Payload>, p: Payload)
    ensures Repaired(repairs + [p], p.index)
    ensures forall x :: Repaired(repairs, x) ==> Repaired(repairs + [p], x)
  {
    var more := repairs + [p];
    assert more[|repairs|] == p;
    forall x | Repaired(repairs, x)
      ensures Repaired(more, x)
    {
      var k :| 0 <= k < |repairs| && repairs[k].index == x;
      assert more[k].index == x;
    }
  }

  // ---------- The receiver's state ----------

  datatype Session = Session(src: string, profileId: nat, size: nat, dataShards: nat, shards: map<nat, Encoded>,
                             lastUpdate: nat, startReceived: bool, endReceived: bool, lastNack: nat)

  datatype Shown = Shown(id: string, data: Bytes)

  datatype Nack = Nack(id: string, dst: string, missing: seq<nat>)

  datatype Receiver = Receiver(sessions: map<string, Session>, completed: map<string, nat>, shown: seq<Shown>,
                               nacks: seq<Nack>)

  function NewSession(src: string, now: nat): Session { Session(src, 0, 0, 0, map[], now, false, false, 0) }

  function Or(o: Option<nat>, otherwise: nat): nat { if o.Some? then o.value else otherwise }

  function Merged(s: Session, p: Payload): Session {
    s.(src := if p.src != "" then p.src else s.src, profileId := Or(p.meta.profileId, s.profileId),
       size := Or(p.meta.size, s.size), dataShards := Or(p.meta.dataShards, s.dataShards))
  }

  predicate HasShard(p: Payload) { p.index >= 0 && p.data.Some? && p.data.value != Encodes([]) }

  function Updated(s: Session, p: Payload, now: nat): Session {
    var m := Merged(s, p);
    if p.kind == Start then m.(startReceived := true, lastUpdate := now)
    else if p.kind == End then m.(endReceived := true, lastUpdate := now)
    else if HasShard(p) then m.(shards := m.shards[p.index := p.data.value], lastUpdate := now)
    else m
  }

  /** Whether the updated session is decoded now, and whether missing shards may then be requested. */
  datatype Decision = Keep | Finalize(allowNack: bool)

  function Decide(s: Session, p: Payload): Decision {
    if p.kind == Start then Keep
    else if p.kind == End then Finalize(true)
    else if !HasShard(p) then Keep
    else if s.startReceived && !s.endReceived && s.dataShards > 0 && |s.shards| >= s.dataShards then Finalize(false)
    else if p.kind == Repair && s.endReceived then Finalize(true)
    else Keep
  }

  /** The shards that have a text form and the size of the profile. */
  function Usable(shards: map<nat, Encoded>, p: Profile): (m: map<int, Bytes>) {
    map i: nat | i in shards && shards[i].Encodes? && |shards[i].bytes| == p.shardSize :: shards[i].bytes
  }

  /** What decoding makes of the shards; any error yields nothing. */
  ghost predicate RestoresTo(shards: map<nat, Encoded>, profileId: nat, size: nat, r: Option<Bytes>) {
    match GetProfile(profileId)
    case Err(_) => r == None
    case Ok(p) => exists d :: DecodesTo(Usable(shards, p), p, size, d) && r == if d.Ok? then d.value else None
  }

  function MissingOf(shards: map<nat, Encoded>, profileId: nat): seq<nat> {
    match GetProfile(profileId)
    case Err(_) => []
    case Ok(p) => MissingShardIndexes(p.TotalShards(), shards.Keys)
  }

  /** A restored payload is shown and closes the session; otherwise missing shards are requested if that is allowed,
      and the session is given up if not. */
  function Finalized(r: Receiver, id: string, allowNack: bool, now: nat, restored: Option<Bytes>,
                     linkTakes: bool): Receiver
    requires id in r.sessions
  {
    var s := r.sessions[id];
    if restored.Some? then
      r.(shown := r.shown + [Shown(id, restored.value)], sessions := r.sessions - {id},
         completed := r.completed[id := now])
    else
      var missing := MissingOf(s.shards, s.profileId);
      if allowNack && s.src != "" && missing != [] then
        if now - s.lastNack >= NACK_GAP && linkTakes then
          r.(nacks := r.nacks + [Nack(id, s.src, missing)],
             sessions := r.sessions[id := s.(lastNack := now, lastUpdate := now)])
        else r
      else r.(sessions := r.sessions - {id})
  }

  /** Payloads without an id, and those of a session completed within the last 30 s. */
  predicate Ignored(r: Receiver, p: Payload, now: nat) {
    p.id == "" || (p.id in r.completed && r.completed[p.id] > 0 && now - r.completed[p.id] <= SESSION_TIMEOUT)
  }

  ghost predicate Oldest(sessions: map<string, Session>, victim: string) {
    victim in sessions && forall k :: k in sessions ==> sessions[victim].lastUpdate <= sessions[k].lastUpdate
  }

  /** A new session may evict the one that was updated longest ago. */
  ghost predicate MakesRoom(sessions: map<string, Session>, id: string, room: map<string, Session>) {
    if id in sessions || |sessions| < MAX_SESSIONS then room == sessions
    else exists victim :: Oldest(sessions, victim) && room == sessions - {victim}
  }

  /** The session a payload finds or opens, updated. */
  function Touched(room: map<string, Session>, p: Payload, now: nat): Session {
    Updated(if p.id in room then room[p.id] else NewSession(p.src, now), p, now)
  }

  ghost predicate Handles(r: Receiver, p: Payload, now: nat, linkTakes: bool, r': Receiver) {
    if Ignored(r, p, now) then r' == r
    else exists room :: MakesRoom(r.sessions, p.id, room) && HandlesIn(r, room, p, now, linkTakes, r')
  }

  ghost predicate HandlesIn(r: Receiver, room: map<string, Session>, p: Payload, now: nat, linkTakes: bool,
                            r': Receiver) {
    var s := Touched(room, p, now);
    var u := r.(sessions := room[p.id := s]);
    match Decide(s, p)
    case Keep => r' == u
    case Finalize(allowNack) => exists restored ::
      && RestoresTo(s.shards, s.profileId, s.size, restored)
      && r' == Finalized(u, p.id, allowNack, now, restored, linkTakes)
  }

  // ---------- What a payload means ----------

  /** A session takes from a payload its source, its meta data, its mark of a start or an end, or its shard. */
  ghost predicate Takes(s: Session, s': Session, p: Payload, now: nat) {
    var shard := (p.kind == Chunk || p.kind == Repair) && p.index >= 0 && p.data.Some? && p.data.value != Encodes([]);
    && (if p.src == "" then s'.src == s.src else s'.src == p.src)
    && (if p.meta.profileId.None? then s'.profileId == s.profileId else Some(s'.profileId) == p.meta.profileId)
    && (if p.meta.size.None? then s'.size == s.size else Some(s'.size) == p.meta.size)
    && (if p.meta.dataShards.None? then s'.dataShards == s.dataShards else Some(s'.dataShards) == p.meta.dataShards)
    && (s'.startReceived <==> s.startReceived || p.kind == Start)
    && (s'.endReceived <==> s.endReceived || p.kind == End)
    && s'.shards == (if shard then s.shards[p.index := p.data.value] else s.shards) && s'.lastNack == s.lastNack
    && s'.lastUpdate == if shard || p.kind == Start || p.kind == End then now else s.lastUpdate
  }

  /** A payload goes to the session of its id, or else to an empty one of its source. */
  lemma TouchedTakes(room: map<string, Session>, p: Payload, now: nat)
    ensures var s := if p.id in room then room[p.id] else Session(p.src, 0, 0, 0, map[], now, false, false, 0);
      Takes(s, Touched(room, p, now), p, now)
  {
  }

  /** Decoding is tried at an end; when a shard makes as many as the data has, between start and end; and when a repair
      arrives after the end. Only before the end must nothing be requested. */
  lemma DecidesExactly(s: Session, p: Payload)
    ensures
      var carries := p.index >= 0 && p.data.Some? && p.data.value != Encodes([]);
      var shard := (p.kind == Chunk || p.kind == Repair) && carries;
      var early := shard && s.startReceived && !s.endReceived && 0 < s.dataShards <= |s.shards|;
      && (Decide(s, p) == Finalize(false) <==> early)
      && (Decide(s, p) == Finalize(true) <==> p.kind == End || (shard && p.kind == Repair && s.endReceived))
  {
  }

  /** Missing shards are requested exactly when an end, or a repair after the end, restores nothing, a source is known,
      shards of the assumed profile are absent, the last request is at least 500 ms ago and the link takes a new one.
      The request then lists exactly the absent shards, and its time is remembered. */
  ghost predicate AsksFor(r: Receiver, room: map<string, Session>, p: Payload, now: nat, linkTakes: bool,
                          r': Receiver) {
    var s := Touched(room, p, now);
    var total := if s.profileId == 0 then 33 else if s.profileId == 1 then 35 else 0;
    if && (p.kind == End || (p.kind == Repair && HasShard(p) && s.endReceived))
       && r'.shown == r.shown && s.src != "" && exists x: nat :: x < total && x !in s.shards
    then
      if linkTakes && now - s.lastNack >= 500 then
        && r'.sessions == room[p.id := s.(lastNack := now, lastUpdate := now)]
        && exists missing: seq<nat> ::
             && r'.nacks == r.nacks + [Nack(p.id, s.src, missing)]
             && Ascending(missing) && forall x: nat :: x in missing <==> x < total && x !in s.shards
      else r'.nacks == r.nacks && r'.sessions == room[p.id := s]
    else r'.nacks == r.nacks
  }

  lemma HandlingAsks(r: Receiver, room: map<string, Session>, p: Payload, now: nat, linkTakes: bool, r': Receiver)
    requires HandlesIn(r, room, p, now, linkTakes, r')
    ensures AsksFor(r, room, p, now, linkTakes, r')
  {
    var s := Touched(room, p, now);
    MissingAbsent(s.shards, s.profileId);
    hide Touched, RestoresTo, MissingOf, HasShard;
    if Decide(s, p).Finalize? {
      var u := r.(sessions := room[p.id := s]);
      assert u.sessions[p.id := s.(lastNack := now, lastUpdate := now)]
             == room[p.id := s.(lastNack := now, lastUpdate := now)];
    }
  }

  lemma MissingAbsent(shards: map<nat, Encoded>, profileId: nat)
    ensures var missing := MissingOf(shards, profileId);
      var total := if profileId == 0 then 33 else if profileId == 1 then 35 else 0;
      && Ascending(missing) && (forall x: nat :: x in missing <==> x < total && x !in shards)
      && (missing == [] <==> forall x: nat :: x < total ==> x in shards)
  {
    hide MissingShardIndexes;
    var missing := MissingOf(shards, profileId);
    assert missing != [] ==> missing[0] in missing;
  }

  function Pruned(r: Receiver, now: nat): Receiver {
    r.(sessions := map k | k in r.sessions && r.sessions[k].lastUpdate >= now - SESSION_TIMEOUT :: r.sessions[k],
       completed := map k | k in r.completed && r.completed[k] >= now - SESSION_TIMEOUT :: r.completed[k])
  }

  // ---------- The object ----------

  method DecodeReliable(t: Tables, shards: map<nat, Encoded>, profileId: nat, size: nat) returns (r: Option<Bytes>)
    requires t.Built()
    ensures RestoresTo(shards, profileId, size, r)
  {
    hide DecodesTo;
    var profile := GetProfile(profileId);
    if profile.Err? {
      return None;
    }
    var d := DecodeShards(t, Usable(shards, profile.value), profile.value, size);
    return if d.Ok? then d.value else None;
  }

  class ReliableReceiver {
    const tables: Tables
    var sessions: map<string, Session>
    var completed: map<string, nat>
    var shown: seq<Shown>
    var nacks: seq<Nack>

    ghost predicate Valid()
      reads this
    {
      tables.Built() && |sessions| <= MAX_SESSIONS
    }

    ghost function View(): Receiver
      reads this
    {
      Receiver(sessions, completed, shown, nacks)
    }

    constructor (tables: Tables)
      requires tables.Built()
      ensures Valid() && View() == Receiver(map[], map[], [], [])
    {
      this.tables := tables;
      sessions, completed, shown, nacks := map[], map[], [], [];
    }

    /** Finds the session that was updated longest ago. */
    method FindOldest() returns (oldest: string)
      requires sessions != map[]
      ensures Oldest(sessions, oldest)
    {
      var todo := sessions.Keys;
      oldest :| oldest in todo;
      todo := todo - {oldest};
      while todo != {}
        invariant oldest in sessions && todo <= sessions.Keys
        invariant forall k :: k in sessions && k !in todo ==> sessions[oldest].lastUpdate <= sessions[k].lastUpdate
        decreases |todo|
      {
        var k :| k in todo;
        if sessions[k].lastUpdate < sessions[oldest].lastUpdate {
          oldest := k;
        }
        todo := todo - {k};
      }
    }

    method EnsureSessionCapacity(incoming: string)
      requires Valid()
      modifies this`sessions
      ensures Valid() && MakesRoom(old(sessions), incoming, sessions)
      ensures incoming in sessions || |sessions| < MAX_SESSIONS
    {
      if incoming in sessions || |sessions| < MAX_SESSIONS {
        return;
      }
      var oldest := FindOldest();
      Removed(sessions, oldest);
      sessions := sessions - {oldest};
    }

    method TryFinalize(id: string, allowNack: bool, now: nat, linkTakes: bool)
      requires Valid() && id in sessions
      modifies this
      ensures Valid()
      ensures exists restored ::
                && RestoresTo(old(sessions)[id].shards, old(sessions)[id].profileId, old(sessions)[id].size, restored)
                && View() == Finalized(old(View()), id, allowNack, now, restored, linkTakes)
    {
      var s := sessions[id];
      Removed(sessions, id);
      Replaced(sessions, id, s.(lastNack := now, lastUpdate := now));
      var restored := DecodeReliable(tables, s.shards, s.profileId, s.size);
      hide RestoresTo;
      if restored.Some? {
        shown := shown + [Shown(id, restored.value)];
        sessions := sessions - {id};
        completed := completed[id := now];
        return;
      }
      var missing := MissingOf(s.shards, s.profileId);
      if allowNack && s.src != "" && missing != [] {
        if now - s.lastNack >= NACK_GAP {
          if linkTakes {
            nacks := nacks + [Nack(id, s.src, missing)];
            sessions := sessions[id := s.(lastNack := now, lastUpdate := now)];
          }
        }
        return;
      }
      sessions := sessions - {id};
    }

    method HandleReliablePayload(p: Payload, now: nat, linkTakes: bool)
      requires Valid()
      modifies this
      ensures Valid() && Handles(old(View()), p, now, linkTakes, View())
      ensures if || p.id == ""
                 || (p.id in old(completed) && 0 < old(completed)[p.id] && now - old(completed)[p.id] <= 30000)
              then View() == old(View())
              else exists room ::
                     && MakesRoom(old(sessions), p.id, room)
                     && HandlesIn(old(View()), room, p, now, linkTakes, View())
                     && AsksFor(old(View()), room, p, now, linkTakes, View())
    {
      if p.id == "" {
        return;
      }
      if p.id in completed && completed[p.id] > 0 && now - completed[p.id] <= SESSION_TIMEOUT {
        return;
      }
      hide MakesRoom, HandlesIn, AsksFor;
      EnsureSessionCapacity(p.id);
      ghost var room := sessions;
      Dispatch(p, now, linkTakes);
      SessionsReplaced(old(View()), room, p, now, linkTakes, View());
      HandlingAsks(old(View()), room, p, now, linkTakes, View());
    }

    /** Finds or opens the session, updates it, and finalizes it if it is time. */
    method Dispatch(p: Payload, now: nat, linkTakes: bool)
      requires Valid() && (p.id in sessions || |sessions| < MAX_SESSIONS)
      modifies this
      ensures Valid() && HandlesIn(old(View()), old(sessions), p, now, linkTakes, View())
    {
      hide Touched, Decide, RestoresTo, Finalized;
      var session := Touched(sessions, p, now);
      Opened(sessions, p.id, session);
      sessions := sessions[p.id := session];
      match Decide(session, p) {
        case Keep =>
        case Finalize(allowNack) =>
          TryFinalize(p.id, allowNack, now, linkTakes);
      }
    }

    method PruneRxSessions(now: nat)
      requires Valid()
      modifies this`sessions, this`completed
      ensures Valid() && View() == Pruned(old(View()), now)
      ensures forall k :: k in sessions <==> k in old(sessions) && now - old(sessions)[k].lastUpdate <= 30000
      ensures forall k :: k in sessions ==> sessions[k] == old(sessions)[k]
      ensures forall k :: k in completed <==> k in old(completed) && now - old(completed)[k] <= 30000
      ensures forall k :: k in completed ==> completed[k] == old(completed)[k]
    {
      Fewer(Pruned(View(), now).sessions, sessions);
      sessions := map k | k in sessions && sessions[k].lastUpdate >= now - SESSION_TIMEOUT :: sessions[k];
      completed := map k | k in completed && completed[k] >= now - SESSION_TIMEOUT :: completed[k];
    }
  }

  /** The sessions before making room do not matter. */
  lemma SessionsReplaced(r: Receiver, room: map<string, Session>, p: Payload, now: nat, linkTakes: bool, r': Receiver)
    ensures HandlesIn(r.(sessions := room), room, p, now, linkTakes, r') ==> HandlesIn(r, room, p, now, linkTakes, r')
  {
    hide Touched, Decide, RestoresTo, Finalized;
  }

  lemma Removed(m: map<string, Session>, k: string)
    requires k in m
    ensures |m - {k}| == |m| - 1
  {
    assert (m - {k}).Keys == m.Keys - {k};
    assert |m.Keys - {k}| == |m.Keys| - 1;
  }

  lemma Replaced(m: map<string, Session>, k: string, s: Session)
    requires k in m
    ensures |m[k := s]| == |m|
  {
    assert m[k := s].Keys == m.Keys;
  }

  lemma Opened(m: map<string, Session>, k: string, s: Session)
    ensures |m[k := s]| <= if k in m then |m| else |m| + 1
  {
    assert m[k := s].Keys == m.Keys + {k};
  }

  lemma {:induction false} Fewer(m: map<string, Session>, n: map<string, Session>)
    requires m.Keys <= n.Keys
    ensures |m| <= |n|
    decreases |m|
  {
    if m != map[] {
      var k :| k in m.Keys;
      Removed(m, k);
      Removed(n, k);
      Fewer(m - {k}, n - {k});
    }
  }
}
