/** Whole runs of the mesh: any number of nodes, and a medium that loses, repeats, delays and reorders. */
module MeshNetwork {
  import opened Wrappers
  import opened Octets
  import opened Clock
  import opened Residues
  import opened LinkMetrics
  import opened MeshFrames
  import opened DuplicateFilters
  import opened Reassembly
  import opened MeshNodes

  /** What went out under one message id: a payload handed to the send call, or node information. */
  datatype Sent =
    | Sent(dst: U32, appType: Octet, payload: Bytes, ttl: Octet)
    | Info(info: Bytes, ttl: Octet)

  type MessageId = (U32, U32)

  /** Something that was put on the air, with the nodes that have sent it on, its origin first. */
  datatype Transmission = Transmission(data: Bytes, path: seq<U32>)

  /** `air` holds every transmission ever made: any of them may reach any node, any number of times, or never. */
  datatype Net = Net(nodes: map<U32, Node>, air: set<Transmission>, sent: map<MessageId, Sent>,
                     firstIds: map<U32, U32>, issued: map<U32, nat>)

  // ---------- Message ids ----------

  /** The k-th message id of a node that started with `first`. */
  function NthId(first: U32, k: nat): U32 { if k == 0 then first else IdAfter(NthId(first, k - 1)) }

  /** Ids run through 1 .. 2^32 - 1, so fewer than 2^32 - 1 of them are all different. */
  lemma {:induction false} NthIdIs(first: U32, k: nat)
    requires first != 0
    ensures NthId(first, k) == (first - 1 + k) % (WRAP - 1) + 1
  {
    if k != 0 {
      NthIdIs(first, k - 1);
      var x := first - 1 + (k - 1);
      NextResidue(x, WRAP - 1);
    }
  }

  lemma IdsDiffer(first: U32, j: nat, k: nat)
    requires first != 0 && j < k < WRAP - 1
    ensures NthId(first, j) != NthId(first, k)
  {
    hide NthId;
    NthIdIs(first, j);
    NthIdIs(first, k);
  }

  // ---------- Steps ----------

  ghost predicate Init(s: Net) {
    && s.air == {} && s.sent == map[]
    && s.firstIds.Keys == s.issued.Keys == s.nodes.Keys
    && forall id :: id in s.nodes ==>
         && id != 0 && s.firstIds[id] != 0 && s.issued[id] == 0
         && s.nodes[id].id == id && s.nodes[id].table == map[] && s.nodes[id].queued == [] && s.nodes[id].waiting == 0
         && s.nodes[id].nextId == s.firstIds[id]
  }

  /** A node that has issued fewer than 2^32 - 1 ids so far sends something under its next one. */
  ghost predicate IssueStep(s: Net, s': Net, id: U32, n': Node, r: Sent, frames: seq<Bytes>) {
    && id in s.nodes && id in s.issued && s.issued[id] < WRAP - 1
    && s' == s.(nodes := s.nodes[id := n'],
                air := s.air + (set i | 0 <= i < |frames| :: Transmission(frames[i], [id])),
                sent := s.sent[(id, s.nodes[id].nextId) := r],
                issued := s.issued[id := s.issued[id] + 1])
  }

  /** A node sends a payload. */
  ghost predicate OriginateStep(s: Net, s': Net, id: U32, n': Node, r: Sent, frames: seq<Bytes>) {
    && IssueStep(s, s', id, n', r, frames) && r.Sent?
    && |r.payload| <= MAX_APP_PAYLOAD && (r.appType == APP_TEXT || r.appType == APP_BINARY)
    && r.dst != id && 1 <= r.ttl <= MAX_TTL
    && Originates(s.nodes[id], n', r.dst, r.appType, r.payload, r.ttl, frames)
  }

  /** A node announces itself. */
  ghost predicate AnnounceStep(s: Net, s': Net, id: U32, n': Node, r: Sent, frame: Bytes) {
    && IssueStep(s, s', id, n', r, [frame]) && r.Info? && 1 <= r.ttl <= MAX_TTL
    && Announces(s.nodes[id], n', r.ttl, r.info, frame)
  }

  /** A transmission reaches a node, which may put what it relays on the air. */
  ghost predicate ReceiveStep(s: Net, s': Net, id: U32, n': Node, t: Transmission, rssi: I8, mac: Mac,
                              now: nat, relay: Option<Bytes>) {
    && id in s.nodes && t in s.air
    && Receives(s.nodes[id], n', t.data, rssi, mac, now, relay)
    && s' == s.(nodes := s.nodes[id := n'],
                air := if relay.None? then s.air else s.air + {Transmission(relay.value, t.path + [id])})
  }

  /** Time-outs remove partial messages, and whatever else happens to the filters loses memories. */
  ghost predicate ForgetStep(s: Net, s': Net, id: U32, n': Node) {
    && id in s.nodes
    && var n := s.nodes[id];
    && n' == n.(history := n'.history, table := n'.table)
    && (forall k :: k in n'.table ==> k in n.table && n'.table[k] == n.table[k])
    && s' == s.(nodes := s.nodes[id := n'])
  }

  /** The application at a node takes a message. */
  ghost predicate PopStep(s: Net, s': Net, id: U32, n': Node, m: Option<Message>) {
    id in s.nodes && Pops(s.nodes[id], n', m) && s' == s.(nodes := s.nodes[id := n'])
  }

  ghost predicate NextStep(s: Net, s': Net) {
    || (exists id, n', r, frames :: OriginateStep(s, s', id, n', r, frames))
    || (exists id, n', r, frame :: AnnounceStep(s, s', id, n', r, frame))
    || (exists id, n', m :: PopStep(s, s', id, n', m))
    || (exists id, n', t, rssi, mac, now, relay :: ReceiveStep(s, s', id, n', t, rssi, mac, now, relay))
    || (exists id, n' :: ForgetStep(s, s', id, n'))
  }

  ghost predicate IsRun(states: seq<Net>) {
    && states != [] && Init(states[0])
    && forall i :: 0 <= i < |states| - 1 ==> NextStep(states[i], states[i + 1])
  }

  // ---------- The invariant ----------

  /** What a frame with this header and body is part of: the i-th fragment of a payload, or node information. */
  ghost predicate BelongsTo(h: Header, body: Bytes, r: Sent, i: nat) {
    match r
    case Sent(dst, appType, payload, _) =>
      && i < FragmentCount(|payload|) && (appType == APP_TEXT || appType == APP_BINARY)
      && h.kind == OriginKind(dst) && body == OriginBody(dst, appType, payload, i)
    case Info(info, _) => h.kind == KIND_NODE_INFO && body == info
  }

  /** A transmission is genuinely what its origin sent: it passes every check, ttl + hops is the origin's ttl, hops
      counts the relays crossed, and the body is untouched. */
  ghost predicate Genuine(t: Transmission, sent: map<MessageId, Sent>, i: nat) {
    Decoded(t.data).Some? &&
    var (h, body) := Decoded(t.data).value;
    && (h.originId, h.messageId) in sent
    && var r := sent[(h.originId, h.messageId)];
    && BelongsTo(h, body, r, i)
    && h.ttl + h.hops == r.ttl
    && |t.path| == h.hops + 1 && t.path[0] == h.originId
  }

  ghost predicate AirGenuine(s: Net) { forall t :: t in s.air ==> exists i: nat :: Genuine(t, s.sent, i) }

  /** A message key stands for something that was sent to everyone or to this node. */
  ghost predicate KeyGenuine(k: Key, id: U32, sent: map<MessageId, Sent>) {
    && (k.originId, k.messageId) in sent
    && var r := sent[(k.originId, k.messageId)];
    && r.Sent? && r.appType == k.appType && (r.dst == 0 || r.dst == id) && k.originId != id
  }

  ghost predicate TableGenuine(t: Table, id: U32, sent: map<MessageId, Sent>) {
    forall k :: k in t ==> KeyGenuine(k, id, sent) && PartOf(t[k], sent[(k.originId, k.messageId)].payload)
  }

  ghost predicate MessageGenuine(m: Message, id: U32, sent: map<MessageId, Sent>) {
    KeyGenuine(m.key, id, sent) && m.data == sent[(m.key.originId, m.key.messageId)].payload
  }

  ghost predicate NodeGenuine(n: Node, sent: map<MessageId, Sent>) {
    && TableGenuine(n.table, n.id, sent) && n.waiting <= |n.queued|
    && forall i :: 0 <= i < |n.queued| ==> MessageGenuine(n.queued[i], n.id, sent)
  }

  ghost predicate IdsFresh(s: Net) {
    && s.firstIds.Keys == s.issued.Keys == s.nodes.Keys
    && (forall id :: id in s.nodes ==>
          s.nodes[id].id == id && s.firstIds[id] != 0 && s.issued[id] <= WRAP - 1
          && s.nodes[id].nextId == NthId(s.firstIds[id], s.issued[id]))
    && forall k :: k in s.sent ==> k.0 in s.nodes && IssuedBefore(s, k)
  }

  ghost predicate IssuedBefore(s: Net, k: MessageId)
    requires k.0 in s.issued && k.0 in s.firstIds
  {
    exists j: nat :: j < s.issued[k.0] && k.1 == NthId(s.firstIds[k.0], j)
  }

  ghost predicate Invariant(s: Net) {
    && IdsFresh(s) && AirGenuine(s)
    && forall id :: id in s.nodes ==> NodeGenuine(s.nodes[id], s.sent)
  }

  // ---------- Originating keeps it ----------

  lemma NewIdIsFresh(s: Net, id: U32)
    requires IdsFresh(s) && id in s.nodes && s.issued[id] < WRAP - 1
    ensures (id, s.nodes[id].nextId) !in s.sent
  {
    hide NthId;
    var k := (id, s.nodes[id].nextId);
    if k in s.sent {
      var j: nat :| j < s.issued[id] && k.1 == NthId(s.firstIds[id], j);
      IdsDiffer(s.firstIds[id], j, s.issued[id]);
    }
  }

  lemma OriginFrameGenuine(origin: U32, messageId: U32, r: Sent, i: nat, sent: map<MessageId, Sent>)
    requires origin != 0 && (origin, messageId) in sent && sent[(origin, messageId)] == r && r.Sent?
             && 1 <= r.ttl <= MAX_TTL
    requires i < FragmentCount(|r.payload|) && (r.appType == APP_TEXT || r.appType == APP_BINARY)
    ensures var data := OriginFrame(origin, messageId, r.ttl, r.dst, r.appType, r.payload, i);
      Genuine(Transmission(data, [origin]), sent, i)
  {
    var h := Header(MESH_MAGIC, MESH_VERSION, OriginKind(r.dst), origin, messageId, r.ttl, 0);
    var body := OriginBody(r.dst, r.appType, r.payload, i);
    OriginFrameValid(r.dst, r.appType, r.payload, i);
    HeaderRoundTrip(h, body);
    hide PutHeader, GetHeader, OriginBody, FragmentBody, ValidMeshBody, FragmentCount;
    assert ParseHeader(PutHeader(h) + body) == Some((h, body));
  }

  lemma InfoFrameGenuine(origin: U32, messageId: U32, r: Sent, sent: map<MessageId, Sent>)
    requires origin != 0 && (origin, messageId) in sent && sent[(origin, messageId)] == r && r.Info?
             && 1 <= r.ttl <= MAX_TTL
    requires IsInfo(r.info, origin)
    ensures Genuine(Transmission(InfoFrame(origin, messageId, r.ttl, r.info), [origin]), sent, 0)
  {
    var h := Header(MESH_MAGIC, MESH_VERSION, KIND_NODE_INFO, origin, messageId, r.ttl, 0);
    HeaderRoundTrip(h, r.info);
    assert ValidMeshBody(KIND_NODE_INFO, r.info);
    hide PutHeader, GetHeader, ValidMeshBody;
    assert ParseHeader(PutHeader(h) + r.info) == Some((h, r.info));
  }

  /** Adding a record under a fresh id leaves everything genuine. */
  lemma SentGrows(s: Net, k: MessageId, r: Sent)
    requires k !in s.sent
    ensures AirGenuine(s) ==> AirGenuine(s.(sent := s.sent[k := r]))
    ensures forall n :: NodeGenuine(n, s.sent) ==> NodeGenuine(n, s.sent[k := r])
  {
    var sent' := s.sent[k := r];
    hide Decoded, BelongsTo, PartOf;
    if AirGenuine(s) {
      forall t | t in s.air
        ensures exists i: nat :: Genuine(t, sent', i)
      {
        var i: nat :| Genuine(t, s.sent, i);
        assert Genuine(t, sent', i);
      }
    }
  }

  /** A frame as it leaves its origin. */
  ghost predicate LeavesGenuine(data: Bytes, origin: U32, sent: map<MessageId, Sent>) {
    exists i: nat :: Genuine(Transmission(data, [origin]), sent, i)
  }

  /** Issuing an id for genuine frames keeps the invariant. */
  lemma IssueKeepsInvariant(s: Net, s': Net, id: U32, n': Node, r: Sent, frames: seq<Bytes>)
    requires Invariant(s) && IssueStep(s, s', id, n', r, frames) && id != 0
    requires n' == s.nodes[id].(history := n'.history, nextId := IdAfter(s.nodes[id].nextId))
    requires forall i :: 0 <= i < |frames| ==> LeavesGenuine(frames[i], id, s'.sent)
    ensures Invariant(s')
  {
    hide LeavesGenuine, NodeGenuine, IdsFresh, AirGenuine, IdAfter;
    NewIdIsFresh(s, id);
    SentGrows(s, (id, s.nodes[id].nextId), r);
    NodeHasId(s, id);
    IdsStayFresh(s, s', id, r);
    IssueKeepsAir(s, s', id, n', r, frames);
    SameNodeGenuine(s.nodes[id], n', s'.sent);
  }

  lemma IssueKeepsAir(s: Net, s': Net, id: U32, n': Node, r: Sent, frames: seq<Bytes>)
    requires AirGenuine(s) && IssueStep(s, s', id, n', r, frames) && (id, s.nodes[id].nextId) !in s.sent
    requires forall i :: 0 <= i < |frames| ==> LeavesGenuine(frames[i], id, s'.sent)
    ensures AirGenuine(s')
  {
    SentGrows(s, (id, s.nodes[id].nextId), r);
    hide Genuine;
    forall t | t in s'.air
      ensures exists i: nat :: Genuine(t, s'.sent, i)
    {
      if t in s.air {
        assert AirGenuine(s.(sent := s'.sent));
      } else {
        var i :| 0 <= i < |frames| && t == Transmission(frames[i], [id]);
        assert LeavesGenuine(frames[i], id, s'.sent);
      }
    }
  }

  lemma OriginateKeepsInvariant(s: Net, s': Net, id: U32, n': Node, r: Sent, frames: seq<Bytes>)
    requires Invariant(s) && OriginateStep(s, s', id, n', r, frames) && id != 0
    ensures Invariant(s')
  {
    hide Genuine, Invariant, OriginFrame, IdAfter, FragmentCount;
    HasId(s, id);
    forall i | 0 <= i < |frames|
      ensures LeavesGenuine(frames[i], id, s'.sent)
    {
      OriginFrameGenuine(id, s.nodes[id].nextId, r, i, s'.sent);
    }
    IssueKeepsInvariant(s, s', id, n', r, frames);
  }

  lemma AnnounceKeepsInvariant(s: Net, s': Net, id: U32, n': Node, r: Sent, frame: Bytes)
    requires Invariant(s) && AnnounceStep(s, s', id, n', r, frame) && id != 0
    ensures Invariant(s')
  {
    hide Genuine, Invariant, InfoFrame, IsInfo, IdAfter;
    HasId(s, id);
    InfoFrameGenuine(id, s.nodes[id].nextId, r, s'.sent);
    assert LeavesGenuine(frame, id, s'.sent);
    IssueKeepsInvariant(s, s', id, n', r, [frame]);
  }

  lemma HasId(s: Net, id: U32)
    requires Invariant(s) && id in s.nodes
    ensures s.nodes[id].id == id
  {
    hide IdsFresh;
    NodeHasId(s, id);
  }

  lemma SameNodeGenuine(n: Node, n': Node, sent: map<MessageId, Sent>)
    requires NodeGenuine(n, sent) && n'.id == n.id && n'.queued == n.queued && n'.waiting <= n.waiting
    requires forall k :: k in n'.table ==> k in n.table && n'.table[k] == n.table[k]
    ensures NodeGenuine(n', sent)
  {
    hide PartOf;
  }

  lemma IdsStayFresh(s: Net, s': Net, id: U32, r: Sent)
    requires IdsFresh(s) && id in s.nodes && s.issued[id] < WRAP - 1
    requires id in s'.nodes && s'.nodes == s.nodes[id := s'.nodes[id]] && s'.firstIds == s.firstIds
    requires s'.nodes[id].id == id && s'.nodes[id].nextId == IdAfter(s.nodes[id].nextId)
    requires s'.sent == s.sent[(id, s.nodes[id].nextId) := r] && s'.issued == s.issued[id := s.issued[id] + 1]
    ensures IdsFresh(s')
  {
    assert NthId(s.firstIds[id], s.issued[id] + 1) == IdAfter(NthId(s.firstIds[id], s.issued[id]));
    hide NthId, IdAfter;
    forall k | k in s'.sent
      ensures k.0 in s'.nodes && IssuedBefore(s', k)
    {
      if k == (id, s.nodes[id].nextId) {
        IssuedNow(s', k, s.issued[id]);
      } else {
        assert k in s.sent;
        IssuedStays(s, s', k);
      }
    }
  }

  lemma IssuedNow(s: Net, k: MessageId, j: nat)
    requires k.0 in s.issued && k.0 in s.firstIds && j < s.issued[k.0] && k.1 == NthId(s.firstIds[k.0], j)
    ensures IssuedBefore(s, k)
  {
  }

  lemma IssuedStays(s: Net, s': Net, k: MessageId)
    requires k.0 in s.issued && k.0 in s.firstIds && IssuedBefore(s, k)
    requires k.0 in s'.issued && s'.firstIds == s.firstIds && s'.issued[k.0] >= s.issued[k.0]
    ensures IssuedBefore(s', k)
  {
    hide NthId;
    var j: nat :| j < s.issued[k.0] && k.1 == NthId(s.firstIds[k.0], j);
    IssuedNow(s', k, j);
  }

  // ---------- Receiving keeps it ----------

  /** Relaying moves one unit from ttl to hops and adds one relay to the path. */
  lemma RelayGenuine(t: Transmission, sent: map<MessageId, Sent>, i: nat, id: U32, relay: Bytes)
    requires Genuine(t, sent, i) && Relayed(t.data, id) == Some(relay)
    ensures Genuine(Transmission(relay, t.path + [id]), sent, i)
  {
    ForwardedParses(t.data);
    var (h, body) := Decoded(t.data).value;
    BelongsAfterRelay(h, body, sent[(h.originId, h.messageId)], i, h.ttl - 1, h.hops + 1);
    hide ParseHeader, Forwarded, BelongsTo, ValidMeshBody;
  }

  /** What belongs to something sent still does after relaying. */
  lemma BelongsAfterRelay(h: Header, body: Bytes, r: Sent, i: nat, ttl: Octet, hops: Octet)
    requires BelongsTo(h, body, r, i)
    ensures BelongsTo(h.(ttl := ttl, hops := hops), body, r, i)
  {
    hide OriginBody, FragmentCount;
  }

  /** What a genuine frame hands to reassembly is a fragment of the payload that was sent, under its key. */
  lemma IncomingGenuine(t: Transmission, sent: map<MessageId, Sent>, i: nat, id: U32, rssi: I8, mac: Mac)
    requires Genuine(t, sent, i)
    requires var (h, body) := Decoded(t.data).value; ForMe(h, body, id) && h.originId != id
    ensures var (h, body) := Decoded(t.data).value;
      var f := AsIncoming(h, body, rssi, mac);
      && KeyGenuine(f.key, id, sent) && f.key.originId == h.originId && f.key.messageId == h.messageId
      && IsFragmentOf(f, sent[(h.originId, h.messageId)].payload)
  {
    var (h, body) := Decoded(t.data).value;
    var r := sent[(h.originId, h.messageId)];
    assert r.Sent?;
    OriginFrameValid(r.dst, r.appType, r.payload, i);
    hide OriginBody, FragmentBody, FragmentSlice, GetU32, PutMeta, GetMeta, ParseHeader, ValidFragmentGeometry;
    assert FragmentPart(h, body) == FragmentBody(r.appType, r.payload, i) by {
      if r.dst == 0 {
        FloodBody(r.appType, r.payload, i);
      }
    }
  }

  lemma FloodBody(appType: Octet, payload: Bytes, i: nat)
    requires i < FragmentCount(|payload|)
    ensures OriginBody(0, appType, payload, i) == FragmentBody(appType, payload, i)
  {
  }

  lemma EvictedGenuine(t: Table, victim: Option<Key>, id: U32, sent: map<MessageId, Sent>)
    requires TableGenuine(t, id, sent)
    ensures TableGenuine(Evicted(t, victim), id, sent)
  {
    hide PartOf, KeyGenuine;
  }

  lemma PushedGenuine(t: Table, f: Incoming, now: nat, id: U32, sent: map<MessageId, Sent>)
    requires TableGenuine(t, id, sent) && KeyGenuine(f.key, id, sent)
    requires IsFragmentOf(f, sent[(f.key.originId, f.key.messageId)].payload)
    ensures TableGenuine(Pushed(t, f, now), id, sent)
    ensures Completed(t, f, now).Some? ==>
              && PartOf(Completed(t, f, now).value, sent[(f.key.originId, f.key.messageId)].payload)
              && Complete(Completed(t, f, now).value)
  {
    GenuineAdmissible(f, sent[(f.key.originId, f.key.messageId)].payload);
    hide KeyGenuine, FragmentCount, FragmentSlice, Admissible;
  }

  lemma ReassembledGenuine(n: Node, n': Node, f: Incoming, victim: Option<Key>, sent: map<MessageId, Sent>, now: nat)
    requires NodeGenuine(n, sent) && n'.id == n.id && KeyGenuine(f.key, n.id, sent)
    requires IsFragmentOf(f, sent[(f.key.originId, f.key.messageId)].payload)
    requires n'.table == Pushed(Evicted(n.table, victim), f, now)
    requires Queues(n, n', f.key, Completed(Evicted(n.table, victim), f, now))
    ensures NodeGenuine(n', sent)
  {
    var payload := sent[(f.key.originId, f.key.messageId)].payload;
    GenuineAdmissible(f, payload);
    hide TableGenuine, Pushed, Completed, KeyGenuine, Delivers, IsFragmentOf, PartOf, Complete, Evicted, Admissible;
    EvictedGenuine(n.table, victim, n.id, sent);
    PushedGenuine(Evicted(n.table, victim), f, now, n.id, sent);
    if n'.queued != n.queued {
      var a := Completed(Evicted(n.table, victim), f, now).value;
      var m :| Delivers(m, f.key, a) && n'.queued == n.queued + [m];
      DeliveryIsExact(m, f.key, a, payload);
      DeliveredKey(m, f.key, a);
    }
  }

  lemma AcceptedGenuine(n: Node, n': Node, t: Transmission, sent: map<MessageId, Sent>, i: nat, rssi: I8,
                        mac: Mac, now: nat)
    requires NodeGenuine(n, sent) && Genuine(t, sent, i) && n'.id == n.id
    requires var (h, body) := Decoded(t.data).value; h.originId != n.id && Reassembles(n, n', h, body, rssi, mac, now)
    ensures NodeGenuine(n', sent)
  {
    var (h, body) := Decoded(t.data).value;
    if !ForMe(h, body, n.id) {
      hide Genuine, ForMe, TableGenuine, MessageGenuine;
    } else {
      IncomingGenuine(t, sent, i, n.id, rssi, mac);
      var f := AsIncoming(h, body, rssi, mac);
      hide Genuine, ForMe, AsIncoming, NodeGenuine, Pushed, Completed, KeyGenuine, Queues, IsFragmentOf, Decoded;
      var victim :|
        && n'.table == Pushed(Evicted(n.table, victim), f, now)
        && Queues(n, n', f.key, Completed(Evicted(n.table, victim), f, now));
      ReassembledGenuine(n, n', f, victim, sent, now);
    }
  }

  lemma DeliveredKey(m: Message, k: Key, a: Assembly)
    requires Delivers(m, k, a)
    ensures m.key == k
  {
  }

  /** The receiving node stays genuine, and so does what it relays. */
  lemma ReceivedGenuine(n: Node, n': Node, t: Transmission, sent: map<MessageId, Sent>, i: nat, rssi: I8,
                        mac: Mac, now: nat, relay: Option<Bytes>)
    requires NodeGenuine(n, sent) && Genuine(t, sent, i) && Receives(n, n', t.data, rssi, mac, now, relay)
    ensures NodeGenuine(n', sent)
    ensures relay.Some? ==> Genuine(Transmission(relay.value, t.path + [n.id]), sent, i)
  {
    hide Genuine, NodeGenuine, Decoded, Reassembles, InHorizon, FrameKey, Relayed;
    if n' != n || relay.Some? {
      AcceptedGenuine(n, n', t, sent, i, rssi, mac, now);
      if relay.Some? {
        RelayGenuine(t, sent, i, n.id, relay.value);
      }
    }
  }

  lemma ReceiveKeepsInvariant(s: Net, s': Net, id: U32, n': Node, t: Transmission, rssi: I8, mac: Mac,
                              now: nat, relay: Option<Bytes>)
    requires Invariant(s) && ReceiveStep(s, s', id, n', t, rssi, mac, now, relay)
    ensures Invariant(s')
  {
    hide Genuine, NodeGenuine, Receives, IdsFresh, AirGenuine;
    ReceiveKeepsIds(s, s', id, n', t, rssi, mac, now, relay);
    NodeHasId(s, id);
    var i := SomeFragment(s, t);
    ReceivedGenuine(s.nodes[id], n', t, s.sent, i, rssi, mac, now, relay);
    AirStaysGenuine(s, s', t.path + [id], relay, i);
  }

  lemma SomeFragment(s: Net, t: Transmission) returns (i: nat)
    requires AirGenuine(s) && t in s.air
    ensures Genuine(t, s.sent, i)
  {
    hide Genuine;
    i :| Genuine(t, s.sent, i);
  }

  lemma AirStaysGenuine(s: Net, s': Net, path: seq<U32>, relay: Option<Bytes>, i: nat)
    requires AirGenuine(s) && s'.sent == s.sent
    requires s'.air == if relay.None? then s.air else s.air + {Transmission(relay.value, path)}
    requires relay.Some? ==> Genuine(Transmission(relay.value, path), s.sent, i)
    ensures AirGenuine(s')
  {
    hide Genuine;
  }

  lemma NodeHasId(s: Net, id: U32)
    requires IdsFresh(s) && id in s.nodes
    ensures s.nodes[id].id == id
  {
    hide NthId;
  }

  lemma ReceiveKeepsIds(s: Net, s': Net, id: U32, n': Node, t: Transmission, rssi: I8, mac: Mac,
                        now: nat, relay: Option<Bytes>)
    requires IdsFresh(s) && ReceiveStep(s, s', id, n', t, rssi, mac, now, relay)
    ensures IdsFresh(s')
  {
    hide NthId, Reassembles, InHorizon, FrameKey;
    SameCounters(s, s', id);
  }

  lemma SameCounters(s: Net, s': Net, id: U32)
    requires IdsFresh(s) && id in s.nodes && id in s'.nodes && s'.nodes == s.nodes[id := s'.nodes[id]]
    requires s'.nodes[id].id == s.nodes[id].id && s'.nodes[id].nextId == s.nodes[id].nextId
    requires s'.sent == s.sent && s'.firstIds == s.firstIds && s'.issued == s.issued
    ensures IdsFresh(s')
  {
    hide NthId;
    forall k | k in s.sent
      ensures k.0 in s'.nodes && IssuedBefore(s', k)
    {
      IssuedStays(s, s', k);
    }
  }

  lemma ForgetKeepsInvariant(s: Net, s': Net, id: U32, n': Node)
    requires Invariant(s) && ForgetStep(s, s', id, n')
    ensures Invariant(s')
  {
    SameNodeGenuine(s.nodes[id], n', s.sent);
    SameCounters(s, s', id);
    hide Genuine, NodeGenuine, IdsFresh;
  }

  lemma PopKeepsInvariant(s: Net, s': Net, id: U32, n': Node, m: Option<Message>)
    requires Invariant(s) && PopStep(s, s', id, n', m)
    ensures Invariant(s')
  {
    SameNodeGenuine(s.nodes[id], n', s.sent);
    SameCounters(s, s', id);
    hide Genuine, NodeGenuine, IdsFresh;
  }

  lemma {:induction false} InvariantInEveryRun(states: seq<Net>, i: nat)
    requires IsRun(states) && i < |states|
    ensures Invariant(states[i]) && 0 !in states[i].nodes
  {
    hide Invariant;
    if i == 0 {
      InitInvariant(states[0]);
    } else {
      InvariantInEveryRun(states, i - 1);
      var s, s' := states[i - 1], states[i];
      assert NextStep(s, s');
      if id, n', r, frames :| OriginateStep(s, s', id, n', r, frames) {
        OriginateKeepsInvariant(s, s', id, n', r, frames);
      } else if id, n', t, rssi, mac, now, relay :| ReceiveStep(s, s', id, n', t, rssi, mac, now, relay) {
        ReceiveKeepsInvariant(s, s', id, n', t, rssi, mac, now, relay);
      } else if id, n', r, frame :| AnnounceStep(s, s', id, n', r, frame) {
        AnnounceKeepsInvariant(s, s', id, n', r, frame);
      } else if id, n', m :| PopStep(s, s', id, n', m) {
        PopKeepsInvariant(s, s', id, n', m);
      } else {
        var id, n' :| ForgetStep(s, s', id, n');
        ForgetKeepsInvariant(s, s', id, n');
      }
    }
  }

  lemma InitInvariant(s: Net)
    requires Init(s)
    ensures Invariant(s)
  {
  }

  // ---------- The results ----------

  /** The message says exactly what its origin handed to the send call under its id, and was meant for this node. */
  ghost predicate Faithful(m: Message, id: U32, sent: map<MessageId, Sent>) {
    var k := (m.key.originId, m.key.messageId);
    k in sent && sent[k].Sent? &&
    m.key.appType == sent[k].appType && m.data == sent[k].payload && (sent[k].dst == 0 || sent[k].dst == id)
  }

  /** End-to-end integrity: in every run, under any loss, repetition, reordering, eviction and time-out, every message a
      node queues has exactly the type, length and bytes its origin passed to the send call under that id, and a
      directed payload is queued only at its destination. */
  lemma EndToEndIntegrity(states: seq<Net>, i: nat, id: U32, j: nat)
    requires IsRun(states) && i < |states| && id in states[i].nodes && j < |states[i].nodes[id].queued|
    ensures Faithful(states[i].nodes[id].queued[j], id, states[i].sent)
  {
    InvariantInEveryRun(states, i);
    HasId(states[i], id);
    assert NodeGenuine(states[i].nodes[id], states[i].sent);
    hide TableGenuine, Genuine;
  }

  /** And so has every message that the application takes. */
  lemma PoppedIsFaithful(states: seq<Net>, i: nat, id: U32, n': Node, m: Option<Message>)
    requires IsRun(states) && i < |states| - 1 && PopStep(states[i], states[i + 1], id, n', m)
    ensures m.Some? <==> states[i].nodes[id].waiting > 0
    ensures m.Some? ==> Faithful(m.value, id, states[i].sent)
  {
    hide Faithful, IsRun;
    var n := states[i].nodes[id];
    if n.waiting > 0 {
      EndToEndIntegrity(states, i, id, |n.queued| - n.waiting);
    }
  }

  /** The flood invariant: everything on the air passes every check, has its origin's body, be it a fragment or node
      information, and has spent exactly its hops of the origin's ttl, one for each relay crossed. */
  lemma FloodInvariant(states: seq<Net>, i: nat, t: Transmission)
    requires IsRun(states) && i < |states| && t in states[i].air
    ensures Decoded(t.data).Some? &&
      var (h, body) := Decoded(t.data).value;
      && (h.originId, h.messageId) in states[i].sent
      && var r := states[i].sent[(h.originId, h.messageId)];
      && h.ttl >= 1 && h.ttl + |t.path| - 1 == h.ttl + h.hops == r.ttl <= MAX_TTL
      && exists f: nat :: BelongsTo(h, body, r, f)
  {
    InvariantInEveryRun(states, i);
    var f: nat :| Genuine(t, states[i].sent, f);
    hide BelongsTo, ValidMeshBody;
  }
}
