/** One firmware node: the checks, filters, reassembly and route learning that a received frame goes through,
    and the decision to relay it. */
module MeshNodes {
  import opened Wrappers
  import opened Octets
  import opened Clock
  import opened LinkMetrics
  import opened MeshFrames
  import opened DuplicateFilters
  import opened Reassembly
  import opened InboundQueues
  import opened Routing
  import opened RoutingTables

  const DUPLICATE_WINDOW_MS: U32 := 30000
  const REJECT_WINDOW_MS: U32 := 250
  const REASSEMBLY_TIMEOUT_MS: U32 := 22000

  // ---------- What a frame says ----------

  /** A frame that passes the header and body checks. */
  function Decoded(data: Bytes): (r: Option<(Header, Bytes)>)
    ensures r.Some? ==> ParseHeader(data) == r && ValidMeshBody(r.value.0.kind, r.value.1)
  {
    match ParseHeader(data)
    case None => None
    case Some((h, body)) => if ValidMeshBody(h.kind, body) then Some((h, body)) else None
  }

  predicate IsFragmentKind(kind: Octet) { kind == KIND_FRAGMENT || kind == KIND_ROUTED_FRAGMENT }

  /** The destination of a directed fragment; zero for everything else. */
  function Destination(h: Header, body: Bytes): U32
    requires ValidMeshBody(h.kind, body)
  {
    if h.kind == KIND_ROUTED_FRAGMENT then GetU32(body, 0) else 0
  }

  /** The fragment meta data and the chunk behind it. */
  function FragmentPart(h: Header, body: Bytes): (r: Bytes)
    requires ValidMeshBody(h.kind, body) && IsFragmentKind(h.kind)
    ensures |r| >= FRAGMENT_META_SIZE
    ensures ValidFragmentGeometry(GetMeta(r), |r| - FRAGMENT_META_SIZE)
  {
    if h.kind == KIND_ROUTED_FRAGMENT then body[ROUTE_META_SIZE..] else body
  }

  function FrameKey(h: Header, body: Bytes): DuplicateKey
    requires ValidMeshBody(h.kind, body)
  {
    DuplicateKey(h.originId, h.messageId, h.kind,
                 if IsFragmentKind(h.kind) then GetMeta(FragmentPart(h, body)).fragIndex else 0xFF)
  }

  function AsIncoming(h: Header, body: Bytes, rssi: I8, senderMac: Mac): Incoming
    requires ValidMeshBody(h.kind, body) && IsFragmentKind(h.kind)
  {
    var part := FragmentPart(h, body);
    var m := GetMeta(part);
    Incoming(Key(h.originId, h.messageId, m.appType), h.hops, m.fragIndex, m.fragCount, m.totalLen,
             part[FRAGMENT_META_SIZE..], rssi, Some(senderMac))
  }

  /** Node information is accepted only from the node it describes. */
  predicate NodeInfoAccepted(h: Header, body: Bytes)
    requires ValidMeshBody(h.kind, body) && h.kind == KIND_NODE_INFO
  {
    GetU32(body, 0) != 0 && GetU32(body, 0) == h.originId
  }

  /** The fragments that go to this node's own reassembly. */
  predicate ForMe(h: Header, body: Bytes, self: U32)
    requires ValidMeshBody(h.kind, body)
  {
    IsFragmentKind(h.kind) && (Destination(h, body) == 0 || Destination(h, body) == self)
  }

  /** The place of the fragment index in a frame. */
  function IndexAt(kind: Octet): nat { if kind == 1 then 15 else 19 }

  /** In terms of the bytes of the frame: frames have the same key exactly when kind, origin, message id and, for
      fragments, fragment index are the same. */
  lemma SameKeyExactly(a: Bytes, b: Bytes)
    requires Decoded(a).Some? && Decoded(b).Some?
    ensures |a| >= 22 && |b| >= 22 && (a[3] == 3 ==> |a| >= 26)
    ensures FrameKey(Decoded(a).value.0, Decoded(a).value.1) == FrameKey(Decoded(b).value.0, Decoded(b).value.1)
            <==>
            && a[3] == b[3] && a[4..8] == b[4..8] && a[8..12] == b[8..12]
            && (a[3] != 2 ==> a[IndexAt(a[3])] == b[IndexAt(b[3])])
  {
    KeyBytes(a);
    KeyBytes(b);
    SameNumber(a, b, 4);
    SameNumber(a, b, 8);
    hide GetU32, Decoded, ValidMeshBody, FrameKey;
  }

  lemma KeyBytes(data: Bytes)
    requires Decoded(data).Some?
    ensures var (h, body) := Decoded(data).value;
      && |data| >= 22 && (data[3] == 3 ==> |data| >= 26) && (data[3] == 1 || data[3] == 2 || data[3] == 3)
      && FrameKey(h, body) == DuplicateKey(GetU32(data, 4), GetU32(data, 8), data[3],
                                           if data[3] == 2 then 255 else data[IndexAt(data[3])])
  {
    hide GetU32, GetU16, ValidFragmentGeometry;
  }

  lemma SameNumber(a: Bytes, b: Bytes, at: nat)
    requires at + 4 <= |a| && at + 4 <= |b|
    ensures GetU32(a, at) == GetU32(b, at) <==> a[at..at + 4] == b[at..at + 4]
  {
    PutGetU32(a, at);
    PutGetU32(b, at);
  }

  /** Fragments flooded, and those directed to this node, are put together here. */
  lemma ForMeExactly(data: Bytes, self: U32)
    requires Decoded(data).Some?
    ensures |data| >= 22
    ensures ForMe(Decoded(data).value.0, Decoded(data).value.1, self)
            <==>
            || data[3] == 1
            || (data[3] == 3 && data[14] == self % 256 && data[15] == self / 256 % 256
                && data[16] == self / 0x1_0000 % 256 && data[17] == self / 0x100_0000)
  {
    var body := Decoded(data).value.1;
    KeyBytes(data);
    if data[3] == 3 {
      LittleEndian(body, self);
      LittleEndian(body, 0);
    }
    hide GetU32, GetU16, ValidFragmentGeometry;
  }

  /** Node information is accepted exactly if it names its origin, which is not zero. */
  lemma NodeInfoExactly(data: Bytes)
    requires Decoded(data).Some? && Decoded(data).value.0.kind == KIND_NODE_INFO
    ensures |data| >= 36
    ensures NodeInfoAccepted(Decoded(data).value.0, Decoded(data).value.1) <==>
              data[14..18] == data[4..8] != [0, 0, 0, 0]
  {
    var (h, body) := Decoded(data).value;
    assert h == GetHeader(data) && body == data[14..];
    SameNumber(body, data[4..8], 0);
    assert GetU32(data[4..8], 0) == GetU32(data, 4);
    assert body[0..4] == data[14..18] && data[4..8][0..4] == data[4..8];
    LittleEndian(body, 0);
    hide GetU32;
  }

  /** What an accepting node sends on: nothing at the end of its life or at its destination. */
  function Relayed(data: Bytes, self: U32): Option<Bytes>
    requires Decoded(data).Some?
  {
    var (h, body) := Decoded(data).value;
    if h.ttl <= 1 || (h.kind == KIND_ROUTED_FRAGMENT && Destination(h, body) == self) then None
    else Some(Forwarded(data))
  }

  /** Byte 12 is the ttl, byte 3 the kind, and bytes 14 to 17 the destination of a directed frame, which this is not. */
  ghost predicate GoesOn(data: Bytes, self: U32) {
    && |data| >= 14 && data[12] > 1
    && !(data[3] == 3 && |data| >= 18
         && data[14] == self % 256 && data[15] == self / 256 % 256
         && data[16] == self / 0x1_0000 % 256 && data[17] == self / 0x100_0000)
  }

  /** One unit of ttl becomes one of hops, byte 13, and all other bytes are the same. */
  ghost predicate OneHopOn(data: Bytes, frame: Bytes) {
    && |frame| == |data| >= 14
    && frame[12] as int == data[12] as int - 1 && frame[13] as int == data[13] as int + 1
    && forall i :: 0 <= i < |data| && i != 12 && i != 13 ==> frame[i] == data[i]
  }

  /** What is relayed, in terms of the bytes of the frame. */
  lemma RelaysExactly(data: Bytes, self: U32)
    requires Decoded(data).Some?
    ensures Relayed(data, self).Some? <==> GoesOn(data, self)
    ensures Relayed(data, self).Some? ==> OneHopOn(data, Relayed(data, self).value)
  {
    hide PutHeader, GetU32, ValidFragmentGeometry;
    var (h, body) := Decoded(data).value;
    assert h == GetHeader(data) && body == data[14..];
    if data[3] == 3 {
      LittleEndian(body, self);
    }
    if h.ttl > 1 {
      ForwardedBytes(data);
    }
  }

  // ---------- Sending a relayed frame on ----------

  /** The builds try a fragment two or three times. */
  const MAX_FORWARD_ATTEMPTS := 3

  /** Node information is tried once; a busy receive queue takes one attempt off the others. */
  function AttemptBudget(kind: Octet, fragmentAttempts: nat, busy: bool): (n: nat)
    requires 1 <= fragmentAttempts
    ensures 1 <= n <= fragmentAttempts
    ensures kind == 2 || fragmentAttempts == 1 ==> n == 1
    ensures kind != 2 && fragmentAttempts > 1 ==> n + (if busy then 1 else 0) == fragmentAttempts
  {
    if kind == KIND_NODE_INFO then 1
    else if busy && fragmentAttempts > 1 then fragmentAttempts - 1
    else fragmentAttempts
  }

  /** The transmissions of one relayed frame: unicasts to these neighbours, then this many broadcasts. */
  datatype Sending = Sending(unicasts: seq<Mac>, floods: nat, forwarded: bool)

  /** The unicast part of sending a frame on, with these tables: that of a relay for
      directed frames, none for others. */
  function UnicastPart(h: Header, body: Bytes, rs: seq<Route>, ns: seq<Neighbor>, self: U32, senderMac: Mac,
                       script: seq<Attempt>): Relay
    requires ValidMeshBody(h.kind, body)
  {
    if h.kind == KIND_ROUTED_FRAGMENT then Relays(rs, ns, Destination(h, body), senderMac, self, script)
    else Relay(rs, ns, [], NoHop)
  }

  /** After the unicast part, a frame that was not passed on is broadcast up to the first success. */
  ghost predicate SendsOn(o: Sending, r: Relay, casts: seq<Radio>) {
    && o.unicasts == r.tried && o.floods <= |casts|
    && (r.status == Reached ==> o.floods == 0)
    && (r.status != Reached ==> o.floods >= 1 && (o.floods == |casts| || casts[o.floods - 1].Succeeds()))
    && (forall k :: 0 <= k < o.floods - 1 ==> !casts[k].Succeeds())
    && (o.forwarded <==> r.status == Reached || (o.floods > 0 && casts[o.floods - 1].Succeeds()))
  }

  type Tables = (seq<Route>, seq<Neighbor>)

  /** The tables after the unicast part and the broadcasts that were made. */
  function AfterSending(r: Relay, casts: seq<Radio>, floods: nat, self: U32): Tables
    requires floods <= |casts|
  {
    var items := ResultsOf(casts[..floods]);
    (RoutesAfterAll(r.routes, r.neighbors, items, self), NeighborsRun(r.neighbors, items))
  }

  /** A relayed frame goes out from these tables, within the attempts that its kind and the receive queue allow. */
  ghost predicate SendsOnBy(o: Sending, frame: (Header, Bytes), before: Tables, after: Tables, self: U32,
                            senderMac: Mac, fragmentAttempts: nat, busy: bool, script: seq<Attempt>, casts: seq<Radio>)
    requires ValidMeshBody(frame.0.kind, frame.1) && 1 <= fragmentAttempts <= |script| && fragmentAttempts <= |casts|
  {
    var attempts := AttemptBudget(frame.0.kind, fragmentAttempts, busy);
    var r := UnicastPart(frame.0, frame.1, before.0, before.1, self, senderMac, script[..attempts]);
    && TableOk(before.0, self) && SendsOn(o, r, casts[..attempts])
    && after == AfterSending(r, casts[..attempts], o.floods, self)
  }

  lemma SendingEvolves(rs: seq<Route>, r: Relay, casts: seq<Radio>, floods: nat, self: U32)
    requires floods <= |casts| && Evolves(rs, r.routes, self, {})
    ensures Evolves(rs, AfterSending(r, casts, floods, self).0, self, {})
  {
    hide Evolves, RoutesAfterAll, NeighborsRun, ResultsOf;
    RecordsEvolve(r.routes, r.neighbors, ResultsOf(casts[..floods]), self);
    EvolvesOn(rs, r.routes, AfterSending(r, casts, floods, self).0, self, {});
  }

  lemma UnicastPartEvolves(h: Header, body: Bytes, rs: seq<Route>, ns: seq<Neighbor>, self: U32, senderMac: Mac,
                           script: seq<Attempt>)
    requires ValidMeshBody(h.kind, body)
    ensures Evolves(rs, UnicastPart(h, body, rs, ns, self, senderMac, script).routes, self, {})
  {
    hide Evolves, Relays, ValidMeshBody;
    EvolvesNot(rs, self, {});
    RelayEvolves(rs, ns, Destination(h, body), senderMac, self, script);
  }

  /** A directed frame is first sent to the hop of the tables as they are, if there is one;
      other frames are not unicast. */
  lemma UnicastsFirst(h: Header, body: Bytes, rs: seq<Route>, ns: seq<Neighbor>, self: U32, senderMac: Mac,
                      script: seq<Attempt>)
    requires ValidMeshBody(h.kind, body) && script != []
    ensures var tried := UnicastPart(h, body, rs, ns, self, senderMac, script).tried;
      if h.kind != 3 then tried == []
      else
        match Hop(rs, GetU32(body, 0), senderMac, script[0].clockMs, self)
        case None => tried == []
        case Some(mac) => tried != [] && tried[0] == mac
  {
    hide Hop, GetU32, ValidFragmentGeometry;
    if h.kind == KIND_ROUTED_FRAGMENT {
      RelayStartsAtHop(rs, ns, GetU32(body, 0), senderMac, self, script);
    }
  }

  // ---------- Sending a fragment out ----------

  /** What happens around the transmissions of one fragment: unicast attempts if it is directed, and broadcasts. */
  datatype FragmentRadio = FragmentRadio(script: seq<Attempt>, casts: seq<Radio>)

  /** The unicast part for a directed fragment that starts here. */
  function OriginPart(dst: U32, t: Tables, self: U32, script: seq<Attempt>): Relay {
    if dst == 0 then Relay(t.0, t.1, [], NoHop) else Relays(t.0, t.1, dst, ZERO_MAC, self, script)
  }

  /** A directed fragment is sent on like a relayed one; any other is broadcast as often as planned. */
  ghost predicate SendsOut(o: Sending, before: Tables, after: Tables, dst: U32, self: U32, radio: FragmentRadio) {
    var r := OriginPart(dst, before, self, radio.script);
    && o.floods <= |radio.casts| && after == AfterSending(r, radio.casts, o.floods, self)
    && if dst != 0 then SendsOn(o, r, radio.casts)
       else
         && o.unicasts == [] && o.floods == |radio.casts|
         && (o.forwarded <==> exists k :: 0 <= k < |radio.casts| && radio.casts[k].Succeeds())
  }

  /** And so is a directed fragment that starts here. */
  lemma OriginUnicastsFirst(dst: U32, t: Tables, self: U32, script: seq<Attempt>)
    requires script != []
    ensures var tried := OriginPart(dst, t, self, script).tried;
      if dst == 0 then tried == []
      else
        match Hop(t.0, dst, ZERO_MAC, script[0].clockMs, self)
        case None => tried == []
        case Some(mac) => tried != [] && tried[0] == mac
  {
    hide Hop;
    if dst != 0 {
      RelayStartsAtHop(t.0, t.1, dst, ZERO_MAC, self, script);
    }
  }

  lemma SendsOutEvolves(o: Sending, before: Tables, after: Tables, dst: U32, self: U32, radio: FragmentRadio)
    requires SendsOut(o, before, after, dst, self, radio)
    ensures Evolves(before.0, after.0, self, {})
  {
    hide Evolves, Relays, AfterSending, SendsOn;
    EvolvesNot(before.0, self, {});
    RelayEvolves(before.0, before.1, dst, ZERO_MAC, self, radio.script);
    SendingEvolves(before.0, OriginPart(dst, before, self, radio.script), radio.casts, o.floods, self);
  }

  // ---------- What becomes of a received frame ----------

  /** Not a valid frame of another node; seen before; seen before among the rejects, or to be rejected; or accepted. */
  datatype Outcome = Dropped | Duplicate | Rejected | Accepted

  /** What each outcome does to the tables. Duplicates are learned from like accepted frames. */
  ghost predicate TablesTake(outcome: Outcome, before: Tables, after: Tables, self: U32, data: Bytes, senderMac: Mac,
                             rssi: I8, senderNodeId: U32, nowMs: U32, clockMs: U32) {
    match outcome
    case Dropped => after == before
    case Rejected => after == (Pruned(before.0, nowMs), PrunedNeighbors(before.1, nowMs))
    case _ =>
      Decoded(data).Some? &&
      var h := Decoded(data).value.0;
      Learns(Pruned(before.0, nowMs), PrunedNeighbors(before.1, nowMs), after.0, after.1, self, h.originId, senderMac,
             h.hops, rssi, senderNodeId, nowMs, clockMs)
  }

  lemma TakingEvolves(outcome: Outcome, before: Tables, after: Tables, self: U32, data: Bytes, senderMac: Mac,
                      rssi: I8, senderNodeId: U32, nowMs: U32, clockMs: U32)
    requires TablesTake(outcome, before, after, self, data, senderMac, rssi, senderNodeId, nowMs, clockMs)
    ensures Evolves(before.0, after.0, self, {senderMac})
  {
    hide Evolves, Pruned, PrunedNeighbors, Learns, Decoded;
    match outcome
    case Dropped => EvolvesNot(before.0, self, {senderMac});
    case Rejected => EvolvesByOne(before.0, Prune(nowMs), self, {senderMac});
    case _ =>
      var h := Decoded(data).value.0;
      LearningEvolves(before.0, PrunedNeighbors(before.1, nowMs), after.0, after.1, self, h.originId, senderMac,
                      h.hops, rssi, senderNodeId, nowMs, clockMs);
  }

  // ---------- The abstract node ----------

  /** The state that decides what a node accepts and delivers. `queued` lists every message ever queued, of which the
      last `waiting` have not been taken by the application. */
  datatype Node = Node(id: U32, history: seq<Memory>, table: Table, queued: seq<Message>, waiting: nat, nextId: U32)

  /** Message ids count up and skip zero. */
  function IdAfter(id: U32): U32 { if (id + 1) % WRAP == 0 then 1 else (id + 1) % WRAP }

  /** Sending a payload consumes one message id and puts leading fragments of the payload on the air. */
  ghost predicate Originates(n: Node, n': Node, dst: U32, appType: Octet, payload: Bytes, ttl: Octet,
                             frames: seq<Bytes>) {
    && n' == n.(history := n'.history, nextId := IdAfter(n.nextId)) && n.history <= n'.history
    && |frames| <= FragmentCount(|payload|)
    && forall i :: 0 <= i < |frames| ==> frames[i] == OriginFrame(n.id, n.nextId, ttl, dst, appType, payload, i)
  }

  /** Node information: the sender's id and 24 further bytes, in a frame under an id of its own. */
  predicate IsInfo(info: Bytes, self: U32) { |info| == NODE_INFO_SIZE && GetU32(info, 0) == self }

  function InfoFrame(origin: U32, messageId: U32, ttl: Octet, info: Bytes): Bytes {
    PutHeader(Header(MESH_MAGIC, MESH_VERSION, KIND_NODE_INFO, origin, messageId, ttl, 0)) + info
  }

  /** A node that accepts what its own id says accepts the announcement. */
  lemma InfoAccepted(origin: U32, messageId: U32, ttl: Octet, info: Bytes)
    requires IsInfo(info, origin) && origin != 0 && 1 <= ttl <= MAX_TTL
    ensures var frame := InfoFrame(origin, messageId, ttl, info);
      && Decoded(frame) == Some((Header(MESH_MAGIC, MESH_VERSION, KIND_NODE_INFO, origin, messageId, ttl, 0), info))
      && NodeInfoAccepted(Decoded(frame).value.0, Decoded(frame).value.1)
  {
    var h := Header(MESH_MAGIC, MESH_VERSION, KIND_NODE_INFO, origin, messageId, ttl, 0);
    ParsesExactly(h, info);
    hide PutHeader, ParseHeader, GetU32;
  }

  /** Announcing itself consumes one message id and puts one frame on the air. */
  ghost predicate Announces(n: Node, n': Node, ttl: Octet, info: Bytes, frame: Bytes) {
    && n' == n.(history := n'.history, nextId := IdAfter(n.nextId)) && n.history <= n'.history
    && IsInfo(info, n.id) && frame == InfoFrame(n.id, n.nextId, ttl, info)
  }

  /** The application takes the oldest message that waits. */
  ghost predicate Pops(n: Node, n': Node, m: Option<Message>) {
    if n.waiting == 0 then n' == n && m == None
    else
      && n.waiting <= |n.queued| && n' == n.(waiting := n.waiting - 1)
      && m == Some(n.queued[|n.queued| - n.waiting])
  }

  /** The reassembly part of accepting a frame. A completed message is queued exactly when the queue has room. */
  ghost predicate Reassembles(n: Node, n': Node, h: Header, body: Bytes, rssi: I8, senderMac: Mac, now: nat)
    requires ValidMeshBody(h.kind, body)
  {
    if !ForMe(h, body, n.id) then n'.table == n.table && n'.queued == n.queued && n'.waiting == n.waiting
    else
      var f := AsIncoming(h, body, rssi, senderMac);
      exists victim ::
        && n'.table == Pushed(Evicted(n.table, victim), f, now)
        && Queues(n, n', f.key, Completed(Evicted(n.table, victim), f, now))
  }

  ghost predicate Queues(n: Node, n': Node, key: Key, done: Option<Assembly>) {
    if done.None? || n.waiting >= QUEUE_DEPTH then n'.queued == n.queued && n'.waiting == n.waiting
    else n'.waiting == n.waiting + 1 && exists m :: Delivers(m, key, done.value) && n'.queued == n.queued + [m]
  }

  /** One received frame: dropped without effect, or accepted. Accepted frames were not in the duplicate horizon. */
  ghost predicate Receives(n: Node, n': Node, data: Bytes, rssi: I8, senderMac: Mac, now: nat, relay: Option<Bytes>) {
    || (n' == n && relay == None)
    || (Decoded(data).Some? &&
        var (h, body) := Decoded(data).value;
        && h.originId != n.id && n'.id == n.id && n'.nextId == n.nextId
        && !InHorizon(n.history, FrameKey(h, body), now, DUPLICATE_WINDOW_MS)
        && n'.history == n.history + [Memory(FrameKey(h, body), now)]
        && Reassembles(n, n', h, body, rssi, senderMac, now)
        && relay == Relayed(data, n.id))
  }

  /** The queue holds the last of all messages ever queued. */
  ghost predicate Waiting(contents: seq<Message>, queued: seq<Message>) {
    |contents| <= |queued| && contents == queued[|queued| - |contents|..]
  }

  lemma WaitingMore(contents: seq<Message>, queued: seq<Message>, m: Message)
    requires Waiting(contents, queued)
    ensures Waiting(contents + [m], queued + [m])
  {
  }

  function FragmentKey(origin: U32, messageId: U32, dst: U32, i: nat): DuplicateKey {
    DuplicateKey(origin, messageId, OriginKind(dst), i)
  }

  /** What remembering a key at this instant makes of the history: it is added unless it was reported as seen, which
      without wrap-around means it is in the horizon. */
  ghost predicate Notes(before: seq<Memory>, after: seq<Memory>, key: DuplicateKey, seen: bool, now: nat) {
    && after == before + (if seen then [] else [Memory(key, now)])
    && (seen && NoWrap(before, now) ==> InHorizon(before, key, now, DUPLICATE_WINDOW_MS))
  }

  function Noted(before: seq<Memory>, origin: U32, messageId: U32, dst: U32, seen: seq<bool>, now: nat): seq<Memory> {
    if seen == [] then before
    else
      var n := |seen| - 1;
      Noted(before, origin, messageId, dst, seen[..n], now)
      + if seen[n] then [] else [Memory(FragmentKey(origin, messageId, dst, n), now)]
  }

  /** The keys of leading fragments were remembered one after the other. */
  ghost predicate NotedWell(before: seq<Memory>, after: seq<Memory>, origin: U32, messageId: U32, dst: U32,
                            seen: seq<bool>, now: nat) {
    && after == Noted(before, origin, messageId, dst, seen, now)
    && forall i :: 0 <= i < |seen| ==>
         Notes(Noted(before, origin, messageId, dst, seen[..i], now),
               Noted(before, origin, messageId, dst, seen[..i + 1], now),
               FragmentKey(origin, messageId, dst, i), seen[i], now)
  }

  lemma NotedOneMore(before: seq<Memory>, mid: seq<Memory>, after: seq<Memory>, origin: U32, messageId: U32, dst: U32,
                     seen: seq<bool>, known: bool, now: nat)
    requires NotedWell(before, mid, origin, messageId, dst, seen, now)
    requires Notes(mid, after, FragmentKey(origin, messageId, dst, |seen|), known, now)
    ensures NotedWell(before, after, origin, messageId, dst, seen + [known], now)
  {
    hide InHorizon, NoWrap, FragmentKey;
    var more, n := seen + [known], |seen|;
    assert more[..n] == seen && more[..n + 1] == more;
    assert forall i :: 0 <= i <= n ==> more[..i] == seen[..i];
  }

  /** A call that sends fragments ends with the first that no transmission gets out, or with the last. */
  ghost predicate EndsRight(ok: bool, sendings: seq<Sending>, count: nat) {
    && 0 < |sendings| <= count
    && (forall i :: 0 <= i < |sendings| - 1 ==> sendings[i].forwarded)
    && (ok <==> |sendings| == count && sendings[count - 1].forwarded)
    && (!ok ==> !sendings[|sendings| - 1].forwarded)
  }

  class EspNowMesh {
    const nodeId: U32
    const duplicateFilter: DuplicateFilter
    const rejectFilter: DuplicateFilter
    const reassembly: ReassemblyManager
    const inbound: InboundQueue
    const tables: RoutingTables
    var nextMessageId: U32
    ghost var queued: seq<Message>

    ghost function Repr(): set<object> {
      {duplicateFilter, duplicateFilter.entries, rejectFilter, rejectFilter.entries, reassembly,
       reassembly.slots, inbound, inbound.items, tables.routes, tables.neighbors}
    }

    ghost predicate Valid()
      reads this, Repr()
    {
      && this !in Repr()
      && duplicateFilter != rejectFilter && duplicateFilter.entries != rejectFilter.entries
      && duplicateFilter.Valid() && rejectFilter.Valid() && reassembly.Valid() && inbound.Valid() && tables.Valid()
      && duplicateFilter.window == DUPLICATE_WINDOW_MS && rejectFilter.window == REJECT_WINDOW_MS
      && tables.nodeId == nodeId
      && Waiting(inbound.contents, queued)
    }

    ghost function View(): Node
      reads this, Repr()
      requires Valid()
    {
      Node(nodeId, duplicateFilter.history, reassembly.table, queued, |inbound.contents|, nextMessageId)
    }

    ghost function TablesNow(): Tables
      reads this, tables.routes, tables.neighbors
    {
      (tables.routes[..], tables.neighbors[..])
    }

    ghost predicate ClockAt(now: nat)
      reads this, Repr()
      requires Valid()
    {
      duplicateFilter.clock <= now && rejectFilter.clock <= now
    }

    constructor (nodeId: U32, firstId: U32)
      ensures Valid() && fresh(Repr()) && this.nodeId == nodeId
      ensures View() == Node(nodeId, [], map[], [], 0, if firstId == 0 then 1 else firstId) && ClockAt(0)
      ensures tables.routes[..] == Run(MAX_ROUTES, [], nodeId)
    {
      hide DuplicateFilter.Valid, ReassemblyManager.Valid, InboundQueue.Valid, RoutingTables.Valid, Run;
      this.nodeId := nodeId;
      duplicateFilter := new DuplicateFilter(DUPLICATE_WINDOW_MS);
      rejectFilter := new DuplicateFilter(REJECT_WINDOW_MS);
      reassembly := new ReassemblyManager();
      inbound := new InboundQueue();
      tables := new RoutingTables(nodeId);
      nextMessageId := if firstId == 0 then 1 else firstId;
      queued := [];
    }

    method NextMessageId() returns (id: U32)
      modifies this`nextMessageId
      ensures id == old(nextMessageId) && nextMessageId == IdAfter(id)
    {
      id := nextMessageId;
      nextMessageId := (nextMessageId + 1) % WRAP;
      if nextMessageId == 0 {
        nextMessageId := 1;
      }
    }

    /** Sends a payload to everyone, or to one destination if `directed`. `radio` says what happens around the
        transmissions of each fragment; the first fragment of which none succeeds ends the call. */
    method SendPayload(appType: Octet, payload: Bytes, directed: bool, dst: U32, ttl: Octet, radio: seq<FragmentRadio>,
                       nowMs: U32, ghost now: nat)
      returns (ok: bool, messageId: U32, frames: seq<Bytes>, sendings: seq<Sending>)
      requires Valid() && ClockAt(now) && nowMs == Stamp(now)
      requires |radio| == MAX_FRAGMENTS && forall i :: 0 <= i < |radio| ==> radio[i].casts != []
      modifies this, duplicateFilter, duplicateFilter.entries, tables.routes, tables.neighbors
      ensures Valid() && ClockAt(now) && |sendings| == |frames|
      ensures |payload| > MAX_APP_PAYLOAD || (directed && (dst == 0 || dst == nodeId)) ==>
                !ok && frames == [] && View() == old(View()) && TablesNow() == old(TablesNow())
      ensures |payload| <= MAX_APP_PAYLOAD && !(directed && (dst == 0 || dst == nodeId)) ==>
                && Originates(old(View()), View(), if directed then dst else 0, appType, payload, ClampTtl(ttl), frames)
                && messageId == old(nextMessageId) && EndsRight(ok, sendings, FragmentCount(|payload|))
      ensures Evolves(old(tables.routes[..]), tables.routes[..], nodeId, {})
    {
      hide DuplicateFilter.Valid, ReassemblyManager.Valid, InboundQueue.Valid, RoutingTables.Valid, OriginFrame,
           Evolves, EndsRight;
      ok, messageId, frames, sendings := false, 0, [], [];
      EvolvesNot(tables.routes[..], nodeId, {});
      if (directed && (dst == 0 || dst == nodeId)) || |payload| > MAX_APP_PAYLOAD {
        return;
      }
      messageId := NextMessageId();
      ghost var seen, at;
      ok, frames, sendings, seen, at :=
        SendFragments(appType, payload, if directed then dst else 0, ClampTtl(ttl), messageId, radio, nowMs, now);
    }

    /** Builds, remembers and transmits the fragments one after the other. `seen` says which keys were not remembered
        because the filter had seen them, and `at` what the tables are before and after each fragment. */
    method SendFragments(appType: Octet, payload: Bytes, dst: U32, ttl: Octet, messageId: U32,
                         radio: seq<FragmentRadio>, nowMs: U32, ghost now: nat)
      returns (ok: bool, frames: seq<Bytes>, sendings: seq<Sending>, ghost seen: seq<bool>, ghost at: seq<Tables>)
      requires Valid() && ClockAt(now) && nowMs == Stamp(now) && |payload| <= MAX_APP_PAYLOAD
      requires |radio| == MAX_FRAGMENTS && forall i :: 0 <= i < |radio| ==> radio[i].casts != []
      modifies duplicateFilter, duplicateFilter.entries, tables.routes, tables.neighbors
      ensures Valid() && ClockAt(now) && |frames| == |sendings| == |seen| <= FragmentCount(|payload|)
      ensures View() == old(View()).(history := View().history) && old(View()).history <= View().history
      ensures NotedWell(old(View()).history, View().history, nodeId, messageId, dst, seen, now)
      ensures forall i :: 0 <= i < |frames| ==>
                frames[i] == OriginFrame(nodeId, messageId, ttl, dst, appType, payload, i)
      ensures |at| == |frames| + 1 && at[0] == old(TablesNow()) && at[|frames|] == TablesNow()
      ensures forall i :: 0 <= i < |frames| ==> SendsOut(sendings[i], at[i], at[i + 1], dst, nodeId, radio[i])
      ensures EndsRight(ok, sendings, FragmentCount(|payload|))
      ensures Evolves(old(tables.routes[..]), tables.routes[..], nodeId, {})
    {
      hide DuplicateFilter.Valid, ReassemblyManager.Valid, InboundQueue.Valid, RoutingTables.Valid, OriginFrame,
           Waiting, Evolves, SendsOut, NotedWell, FragmentKey;
      frames, sendings, seen, at := [], [], [], [TablesNow()];
      NotedNone(duplicateFilter.history, nodeId, messageId, dst, now);
      EvolvesNot(tables.routes[..], nodeId, {});
      var fragmentCount := FragmentCount(|payload|);
      for index := 0 to fragmentCount
        invariant Valid() && ClockAt(now) && |frames| == |sendings| == |seen| == index && |at| == index + 1
        invariant View() == old(View()).(history := View().history) && old(View()).history <= View().history
        invariant NotedWell(old(View()).history, View().history, nodeId, messageId, dst, seen, now)
        invariant forall i :: 0 <= i < index ==>
                    frames[i] == OriginFrame(nodeId, messageId, ttl, dst, appType, payload, i)
        invariant at[0] == old(TablesNow()) && at[index] == TablesNow()
        invariant forall i :: 0 <= i < index ==> SendsOut(sendings[i], at[i], at[i + 1], dst, nodeId, radio[i])
        invariant forall i :: 0 <= i < index ==> sendings[i].forwarded
        invariant Evolves(old(tables.routes[..]), tables.routes[..], nodeId, {})
      {
        frames := frames + [OriginFrame(nodeId, messageId, ttl, dst, appType, payload, index)];
        ghost var before := duplicateFilter.history;
        var known := RememberOwn(FragmentKey(nodeId, messageId, dst, index), nowMs, now);
        NotedOneMore(old(View()).history, before, View().history, nodeId, messageId, dst, seen, known, now);
        seen := seen + [known];
        var o := SendFragment(dst, radio[index]);
        SendsOutEvolves(o, at[index], TablesNow(), dst, nodeId, radio[index]);
        EvolvesOn(old(tables.routes[..]), at[index].0, tables.routes[..], nodeId, {});
        sendings, at := sendings + [o], at + [TablesNow()];
        if !o.forwarded {
          return false, frames, sendings, seen, at;
        }
      }
      return true, frames, sendings, seen, at;
    }

    /** Remembers the key of a frame of this node's own, unless the filter has seen it. */
    method RememberOwn(key: DuplicateKey, nowMs: U32, ghost now: nat) returns (seen: bool)
      requires Valid() && ClockAt(now) && nowMs == Stamp(now)
      modifies duplicateFilter, duplicateFilter.entries
      ensures Valid() && ClockAt(now) && View() == old(View()).(history := View().history)
              && TablesNow() == old(TablesNow())
      ensures Notes(old(View()).history, View().history, key, seen, now)
    {
      hide DuplicateFilter.Valid, ReassemblyManager.Valid, InboundQueue.Valid, RoutingTables.Valid, InHorizon, NoWrap;
      seen := duplicateFilter.SeenAndRemember(key, nowMs, DUPLICATE_WINDOW_MS, now);
    }

    /** Transmits one fragment that starts here. */
    method SendFragment(dst: U32, radio: FragmentRadio) returns (o: Sending)
      requires Valid() && radio.casts != []
      modifies tables.routes, tables.neighbors
      ensures Valid() && View() == old(View()) && (forall now: nat :: ClockAt(now) <==> old(ClockAt(now)))
      ensures SendsOut(o, old(TablesNow()), TablesNow(), dst, nodeId, radio)
    {
      hide DuplicateFilter.Valid, ReassemblyManager.Valid, InboundQueue.Valid, RoutingTables.Valid, Relays, ResultsOf,
           NeighborsRun, RoutesAfterAll;
      if dst == 0 {
        assert radio.casts[..|radio.casts|] == radio.casts;
        var sent := tables.BroadcastAll(radio.casts);
        return Sending([], |radio.casts|, sent);
      }
      assert radio.script[..|radio.script|] == radio.script;
      var sent, unicasts := tables.OriginUnicast(dst, |radio.script|, radio.script);
      NoCasts(tables.routes[..], tables.neighbors[..], radio.casts, nodeId);
      if sent {
        return Sending(unicasts, 0, true);
      }
      var n;
      sent, n := tables.BroadcastUntilSent(radio.casts);
      return Sending(unicasts, n, sent);
    }

    /** Announces this node: one frame, remembered as a duplicate first. The information itself is a parameter. */
    method SendNodeInfo(ttl: Octet, info: Bytes, radio: Radio, nowMs: U32, ghost now: nat)
      returns (sent: bool, frame: Bytes, ghost seen: bool)
      requires Valid() && ClockAt(now) && nowMs == Stamp(now) && IsInfo(info, nodeId)
      modifies this, duplicateFilter, duplicateFilter.entries, tables.routes, tables.neighbors
      ensures Valid() && ClockAt(now) && (sent <==> radio.Succeeds())
      ensures Announces(old(View()), View(), ClampTtl(ttl), info, frame)
      ensures Notes(old(View()).history, View().history,
                    DuplicateKey(nodeId, old(nextMessageId), KIND_NODE_INFO, 0xFF), seen, now)
      ensures Evolves(old(tables.routes[..]), tables.routes[..], nodeId, {})
    {
      hide DuplicateFilter.Valid, ReassemblyManager.Valid, InboundQueue.Valid, RoutingTables.Valid, InfoFrame, IsInfo,
           Evolves, RoutesAfterAll, NeighborsRun, ResultsOf, InHorizon, NoWrap;
      var messageId := NextMessageId();
      frame := InfoFrame(nodeId, messageId, ClampTtl(ttl), info);
      var known := RememberOwn(DuplicateKey(nodeId, messageId, KIND_NODE_INFO, 0xFF), nowMs, now);
      seen := known;
      var casts := [radio];
      RecordsEvolve(tables.routes[..], tables.neighbors[..], ResultsOf(casts), nodeId);
      sent := tables.BroadcastAll(casts);
      assert sent <==> casts[0].Succeeds();
    }

    /** What the main loop does before it takes frames: late results are recorded and the tables pruned. */
    method StartTurn(late: seq<Recorded>, nowMs: U32)
      requires Valid()
      modifies tables.routes, tables.neighbors
      ensures Valid() && View() == old(View()) && (forall now: nat :: ClockAt(now) <==> old(ClockAt(now)))
      ensures tables.routes[..]
              == Pruned(RoutesAfterAll(old(tables.routes[..]), old(tables.neighbors[..]), late, nodeId), nowMs)
      ensures tables.neighbors[..] == PrunedNeighbors(NeighborsRun(old(tables.neighbors[..]), late), nowMs)
      ensures AllLive(tables.routes[..], nowMs) && Evolves(old(tables.routes[..]), tables.routes[..], nodeId, {})
    {
      hide DuplicateFilter.Valid, ReassemblyManager.Valid, InboundQueue.Valid, RoutingTables.Valid, Evolves, Pruned,
           RoutesAfterAll, NeighborsRun, PrunedNeighbors, AllLive;
      ghost var rs := tables.routes[..];
      RecordsEvolve(rs, tables.neighbors[..], late, nodeId);
      tables.RecordAll(late);
      ghost var mid := tables.routes[..];
      EvolvesByOne(mid, Prune(nowMs), nodeId, {});
      tables.PruneRoutingTables(nowMs);
      EvolvesOn(rs, mid, tables.routes[..], nodeId, {});
    }

    /** Hands the oldest waiting message to the application. */
    method PopReceivedMessage() returns (m: Option<Message>)
      requires Valid()
      modifies inbound
      ensures Valid() && (forall now: nat :: ClockAt(now) <==> old(ClockAt(now)))
      ensures Pops(old(View()), View(), m)
    {
      hide DuplicateFilter.Valid, ReassemblyManager.Valid, InboundQueue.Valid, RoutingTables.Valid;
      m := inbound.Pop();
    }

    /** Drops the messages that were not completed in time. */
    method PruneReassembly(nowMs: U32) returns (dropped: nat)
      requires Valid()
      modifies reassembly, reassembly.slots
      ensures Valid() && (forall now: nat :: ClockAt(now) <==> old(ClockAt(now)))
      ensures View() == old(View()).(table := Unexpired(old(View()).table, nowMs, REASSEMBLY_TIMEOUT_MS))
    {
      hide DuplicateFilter.Valid, ReassemblyManager.Valid, InboundQueue.Valid, RoutingTables.Valid, Unexpired;
      dropped := reassembly.PruneExpired(nowMs, REASSEMBLY_TIMEOUT_MS);
    }

    /** Hands a fragment to reassembly, and a completed message to the inbound queue unless that is full. */
    method HandleFragmentFrame(h: Header, body: Bytes, rssi: I8, senderMac: Mac, nowMs: U32, ghost now: nat)
      requires Valid() && ValidMeshBody(h.kind, body) && ForMe(h, body, nodeId) && nowMs == Stamp(now)
      modifies this`queued, reassembly, reassembly.slots, inbound, inbound.items
      ensures Valid() && View().history == old(View()).history && (ClockAt(now) <==> old(ClockAt(now)))
      ensures tables.routes[..] == old(tables.routes[..]) && tables.neighbors[..] == old(tables.neighbors[..])
      ensures Reassembles(old(View()), View(), h, body, rssi, senderMac, now)
    {
      hide DuplicateFilter.Valid, ReassemblyManager.Valid, InboundQueue.Valid, RoutingTables.Valid, Pushed, Completed,
           AsIncoming, Waiting, Delivers, Evicted;
      ghost var before := View();
      var f := AsIncoming(h, body, rssi, senderMac);
      var out, victim := reassembly.PushFragment(f, nowMs, now);
      if out.Some? {
        WaitingMore(inbound.contents, queued, out.value);
        var ok := inbound.Push(out.value);
        if ok {
          queued := queued + [out.value];
        }
      }
      assert View().table == Pushed(Evicted(before.table, victim), f, now);
    }

    /** Learns routes from a frame that was heard at the instant of the last pruning. */
    method Learn(h: Header, senderMac: Mac, rssi: I8, senderNodeId: U32, nowMs: U32, clockMs: U32)
      requires Valid() && AllLive(tables.routes[..], nowMs)
      modifies tables.routes, tables.neighbors
      ensures Valid() && View() == old(View())
      ensures Learns(old(tables.routes[..]), old(tables.neighbors[..]), tables.routes[..], tables.neighbors[..], nodeId,
                     h.originId, senderMac, h.hops, rssi, senderNodeId, nowMs, clockMs)
    {
      hide DuplicateFilter.Valid, ReassemblyManager.Valid, InboundQueue.Valid, RoutingTables.Valid, Learns;
      tables.LearnRouteFromFrame(h.originId, senderMac, h.hops, rssi, senderNodeId, nowMs, clockMs);
    }

    /** Takes one received frame and returns what to relay. The frame is dropped, or accepted as the abstract node
        accepts it; a valid foreign frame is a duplicate only if it is in the duplicate horizon, and rejected only if it
        is in that of the rejects or is node information about another node, unless the 32-bit clock has wrapped. */
    method TakeFrame(data: Bytes, rssi: I8, senderMac: Mac, senderNodeId: U32, nowMs: U32, clockMs: U32,
                     ghost now: nat)
      returns (relay: Option<Bytes>, outcome: Outcome)
      requires Valid() && nowMs == Stamp(now) && ClockAt(now)
      modifies this, Repr()
      ensures Valid() && ClockAt(now)
      ensures Receives(old(View()), View(), data, rssi, senderMac, now, relay)
      ensures outcome != Accepted ==> View() == old(View()) && relay == None
      ensures outcome == Accepted ==>
                |View().history| == |old(View()).history| + 1 && Decoded(data).Some? && relay == Relayed(data, nodeId)
      ensures outcome == Dropped <==> Decoded(data).None? || Decoded(data).value.0.originId == nodeId
      ensures outcome != Dropped ==>
                var (h, body) := Decoded(data).value;
                var key := FrameKey(h, body);
                && (InHorizon(old(duplicateFilter.history), key, now, DUPLICATE_WINDOW_MS) ==> outcome == Duplicate)
                && (outcome == Duplicate && NoWrap(old(duplicateFilter.history), now) ==>
                      InHorizon(old(duplicateFilter.history), key, now, DUPLICATE_WINDOW_MS))
                && (outcome == Accepted ==>
                      && !(h.kind == KIND_NODE_INFO && !NodeInfoAccepted(h, body))
                      && !InHorizon(old(rejectFilter.history), key, now, REJECT_WINDOW_MS))
                && (outcome == Rejected && NoWrap(old(rejectFilter.history), now) ==>
                      || (h.kind == KIND_NODE_INFO && !NodeInfoAccepted(h, body))
                      || InHorizon(old(rejectFilter.history), key, now, REJECT_WINDOW_MS))
                && (outcome == Rejected && NoWrap(old(rejectFilter.history), now) ==>
                      var known := InHorizon(old(rejectFilter.history), key, now, REJECT_WINDOW_MS);
                      rejectFilter.history == old(rejectFilter.history) + if known then [] else [Memory(key, now)])
      ensures outcome != Rejected ==> rejectFilter.history == old(rejectFilter.history)
      ensures TablesTake(outcome, old(TablesNow()), TablesNow(), nodeId, data, senderMac, rssi, senderNodeId, nowMs,
                         clockMs)
    {
      hide DuplicateFilter.Valid, ReassemblyManager.Valid, InboundQueue.Valid, RoutingTables.Valid, InHorizon, NoWrap,
           FrameKey, ForMe, Receives, NodeInfoAccepted, Learns, Pruned, PrunedNeighbors;
      DropIsReceipt(View(), data, rssi, senderMac, now);
      match Decoded(data) {
        case None => return None, Dropped;
        case Some((h, body)) =>
          if h.originId == nodeId {
            return None, Dropped;
          }
          tables.PruneRoutingTables(nowMs);
          var key := FrameKey(h, body);
          var duplicate, rejected := CheckFilters(key, nowMs, now);
          if duplicate {
            Learn(h, senderMac, rssi, senderNodeId, nowMs, clockMs);
            return None, Duplicate;
          }
          if rejected {
            return None, Rejected;
          }
          if h.kind == KIND_NODE_INFO && !NodeInfoAccepted(h, body) {
            RememberReject(key, nowMs, now);
            return None, Rejected;
          }
          relay := AcceptFrame(data, h, body, rssi, senderMac, senderNodeId, nowMs, clockMs, now);
          return relay, Accepted;
      }
    }

    /** Takes a frame and sends on what is to be relayed. `script` and `casts` say what happens around each
        transmission, and `busy` that the receive queue is filling up; `learned` are the tables at that point. */
    method ProcessFrame(data: Bytes, rssi: I8, senderMac: Mac, senderNodeId: U32, nowMs: U32, clockMs: U32,
                        fragmentAttempts: nat, busy: bool, script: seq<Attempt>, casts: seq<Radio>, ghost now: nat)
      returns (relay: Option<Bytes>, outcome: Outcome, sending: Option<Sending>, ghost learned: Tables)
      requires Valid() && nowMs == Stamp(now) && ClockAt(now)
      requires 1 <= fragmentAttempts <= MAX_FORWARD_ATTEMPTS
      requires |script| == |casts| == MAX_FORWARD_ATTEMPTS
      modifies this, Repr()
      ensures Valid() && ClockAt(now)
      ensures Receives(old(View()), View(), data, rssi, senderMac, now, relay)
      ensures TablesTake(outcome, old(TablesNow()), learned, nodeId, data, senderMac, rssi, senderNodeId, nowMs,
                         clockMs)
      ensures sending.Some? <==> relay.Some?
      ensures outcome != Accepted ==> relay == None
      ensures outcome == Accepted ==> Decoded(data).Some? && relay == Relayed(data, nodeId)
      ensures outcome == Accepted ==> (sending.Some? <==> GoesOn(data, nodeId))
      ensures relay.Some? ==> OneHopOn(data, relay.value)
      ensures match sending
              case None => TablesNow() == learned
              case Some(o) => SendsOnBy(o, Decoded(data).value, learned, TablesNow(), nodeId, senderMac,
                                        fragmentAttempts, busy, script, casts)
      ensures Evolves(old(tables.routes[..]), tables.routes[..], nodeId, {senderMac})
    {
      hide DuplicateFilter.Valid, ReassemblyManager.Valid, InboundQueue.Valid, RoutingTables.Valid, Relayed, Receives,
           SendsOn, TablesTake, AfterSending, UnicastPart, Evolves, GoesOn, OneHopOn;
      ghost var tablesBefore := TablesNow();
      relay, outcome := TakeFrame(data, rssi, senderMac, senderNodeId, nowMs, clockMs, now);
      if outcome == Accepted {
        RelaysExactly(data, nodeId);
      }
      learned := TablesNow();
      TakingEvolves(outcome, tablesBefore, learned, nodeId, data, senderMac, rssi, senderNodeId, nowMs, clockMs);
      if relay.None? {
        return relay, outcome, None, learned;
      }
      var (h, body) := Decoded(data).value;
      var attempts := AttemptBudget(h.kind, fragmentAttempts, busy);
      var o := SendOn(h, body, senderMac, attempts, script, casts[..attempts]);
      EvolvesWider(learned.0, tables.routes[..], nodeId, {}, {senderMac});
      EvolvesOn(tablesBefore.0, learned.0, tables.routes[..], nodeId, {senderMac});
      return relay, outcome, Some(o), learned;
    }

    /** Tries next hops for a directed frame, and broadcasting if there is none or none answers. */
    method SendOn(h: Header, body: Bytes, senderMac: Mac, attempts: nat, script: seq<Attempt>, casts: seq<Radio>)
      returns (o: Sending)
      requires Valid() && ValidMeshBody(h.kind, body) && 1 <= attempts <= |script| && casts != []
      modifies tables.routes, tables.neighbors
      ensures Valid() && View() == old(View()) && (forall now: nat :: ClockAt(now) <==> old(ClockAt(now)))
      ensures old(TableOk(tables.routes[..], nodeId))
      ensures var r := UnicastPart(h, body, old(tables.routes[..]), old(tables.neighbors[..]), nodeId, senderMac,
                                   script[..attempts]);
        SendsOn(o, r, casts) && TablesNow() == AfterSending(r, casts, o.floods, nodeId)
      ensures Evolves(old(tables.routes[..]), tables.routes[..], nodeId, {})
    {
      assert TableOk(tables.routes[..], nodeId);
      hide DuplicateFilter.Valid, ReassemblyManager.Valid, InboundQueue.Valid, RoutingTables.Valid, TableOk, ResultsOf,
           NeighborsRun, RoutesAfterAll, Evolves, UnicastPart;
      ghost var rs := tables.routes[..];
      ghost var r := UnicastPart(h, body, rs, tables.neighbors[..], nodeId, senderMac, script[..attempts]);
      UnicastPartEvolves(h, body, rs, tables.neighbors[..], nodeId, senderMac, script[..attempts]);
      var forwarded, unicasts := UnicastFirst(h, body, senderMac, attempts, script);
      NoCasts(r.routes, r.neighbors, casts, nodeId);
      if forwarded {
        return Sending(unicasts, 0, true);
      }
      var floods;
      forwarded, floods := tables.BroadcastUntilSent(casts);
      SendingEvolves(rs, r, casts, floods, nodeId);
      return Sending(unicasts, floods, forwarded);
    }

    method UnicastFirst(h: Header, body: Bytes, senderMac: Mac, attempts: nat, script: seq<Attempt>)
      returns (forwarded: bool, unicasts: seq<Mac>)
      requires Valid() && ValidMeshBody(h.kind, body) && 1 <= attempts <= |script|
      modifies tables.routes, tables.neighbors
      ensures Valid() && View() == old(View()) && (forall now: nat :: ClockAt(now) <==> old(ClockAt(now)))
      ensures var r := UnicastPart(h, body, old(tables.routes[..]), old(tables.neighbors[..]), nodeId, senderMac,
                                   script[..attempts]);
        TablesNow() == (r.routes, r.neighbors) && unicasts == r.tried && (forwarded <==> r.status == Reached)
    {
      hide DuplicateFilter.Valid, ReassemblyManager.Valid, InboundQueue.Valid, RoutingTables.Valid, Relays,
           ValidMeshBody;
      if h.kind != KIND_ROUTED_FRAGMENT {
        return false, [];
      }
      forwarded, unicasts := tables.RelayUnicast(Destination(h, body), senderMac, attempts, script);
    }

    /** Asks the duplicate filter and then the reject filter. */
    method CheckFilters(key: DuplicateKey, nowMs: U32, ghost now: nat) returns (duplicate: bool, rejected: bool)
      requires Valid() && nowMs == Stamp(now) && ClockAt(now)
      modifies duplicateFilter`clock, duplicateFilter.entries, rejectFilter`clock, rejectFilter.entries
      ensures Valid() && ClockAt(now) && View() == old(View())
      ensures tables.routes[..] == old(tables.routes[..]) && tables.neighbors[..] == old(tables.neighbors[..])
      ensures InHorizon(old(duplicateFilter.history), key, now, DUPLICATE_WINDOW_MS) ==> duplicate
      ensures duplicate && NoWrap(old(duplicateFilter.history), now) ==>
                InHorizon(old(duplicateFilter.history), key, now, DUPLICATE_WINDOW_MS)
      ensures !duplicate && InHorizon(old(rejectFilter.history), key, now, REJECT_WINDOW_MS) ==> rejected
      ensures rejected && NoWrap(old(rejectFilter.history), now) ==>
                InHorizon(old(rejectFilter.history), key, now, REJECT_WINDOW_MS)
      ensures rejectFilter.history == old(rejectFilter.history)
    {
      hide DuplicateFilter.Valid, ReassemblyManager.Valid, InboundQueue.Valid, RoutingTables.Valid, InHorizon, NoWrap;
      rejected := false;
      duplicate := duplicateFilter.Seen(key, nowMs, DUPLICATE_WINDOW_MS, now);
      if !duplicate {
        rejected := rejectFilter.Seen(key, nowMs, REJECT_WINDOW_MS, now);
      }
    }

    method RememberReject(key: DuplicateKey, nowMs: U32, ghost now: nat)
      requires Valid() && nowMs == Stamp(now) && ClockAt(now)
      modifies rejectFilter, rejectFilter.entries
      ensures Valid() && ClockAt(now) && View() == old(View()) && TablesNow() == old(TablesNow())
      ensures rejectFilter.history == old(rejectFilter.history) + [Memory(key, now)]
    {
      hide DuplicateFilter.Valid, ReassemblyManager.Valid, InboundQueue.Valid, RoutingTables.Valid;
      rejectFilter.Remember(key, nowMs, now);
    }

    /** The acceptance of a frame that passed the filters. */
    method AcceptFrame(data: Bytes, h: Header, body: Bytes, rssi: I8, senderMac: Mac, senderNodeId: U32,
                       nowMs: U32, clockMs: U32, ghost now: nat)
      returns (relay: Option<Bytes>)
      requires Valid() && nowMs == Stamp(now) && ClockAt(now) && AllLive(tables.routes[..], nowMs)
      requires Decoded(data) == Some((h, body)) && h.originId != nodeId
      requires !InHorizon(duplicateFilter.history, FrameKey(h, body), now, DUPLICATE_WINDOW_MS)
      modifies this, Repr()
      ensures Valid() && ClockAt(now)
      ensures Receives(old(View()), View(), data, rssi, senderMac, now, relay)
      ensures relay == Relayed(data, nodeId)
      ensures relay.Some? <==> GoesOn(data, nodeId)
      ensures relay.Some? ==> OneHopOn(data, relay.value)
      ensures |View().history| == |old(View()).history| + 1 && rejectFilter.history == old(rejectFilter.history)
      ensures Learns(old(tables.routes[..]), old(tables.neighbors[..]), tables.routes[..], tables.neighbors[..], nodeId,
                     h.originId, senderMac, h.hops, rssi, senderNodeId, nowMs, clockMs)
    {
      hide DuplicateFilter.Valid, ReassemblyManager.Valid, InboundQueue.Valid, RoutingTables.Valid, InHorizon,
           FrameKey, ForMe, Reassembles, Relayed, Learns, AllLive, Waiting, Decoded, GoesOn, OneHopOn;
      ghost var before := View();
      if ForMe(h, body, nodeId) {
        HandleFragmentFrame(h, body, rssi, senderMac, nowMs, now);
      } else {
        NotForMe(before, h, body, rssi, senderMac, now);
      }
      ghost var after := View();
      RememberKey(FrameKey(h, body), nowMs, now);
      Learn(h, senderMac, rssi, senderNodeId, nowMs, clockMs);
      HistoryApart(before, after, h, body, rssi, senderMac, now, View());
      RelaysExactly(data, nodeId);
      return Relayed(data, nodeId);
    }

    method RememberKey(key: DuplicateKey, nowMs: U32, ghost now: nat)
      requires Valid() && nowMs == Stamp(now) && ClockAt(now)
      modifies duplicateFilter, duplicateFilter.entries
      ensures Valid() && ClockAt(now)
      ensures View() == old(View()).(history := old(View()).history + [Memory(key, now)])
      ensures tables.routes[..] == old(tables.routes[..]) && tables.neighbors[..] == old(tables.neighbors[..])
    {
      hide DuplicateFilter.Valid, ReassemblyManager.Valid, InboundQueue.Valid, RoutingTables.Valid;
      duplicateFilter.Remember(key, nowMs, now);
    }
  }

  lemma NotedNone(before: seq<Memory>, origin: U32, messageId: U32, dst: U32, now: nat)
    ensures NotedWell(before, before, origin, messageId, dst, [], now)
  {
  }

  lemma DropIsReceipt(n: Node, data: Bytes, rssi: I8, senderMac: Mac, now: nat)
    ensures Receives(n, n, data, rssi, senderMac, now, None)
  {
  }

  lemma RelayIsRelayed(n: Node, n': Node, data: Bytes, rssi: I8, senderMac: Mac, now: nat, relay: Option<Bytes>)
    requires Receives(n, n', data, rssi, senderMac, now, relay) && relay.Some?
    ensures Decoded(data).Some? && relay == Relayed(data, n.id)
  {
    hide Decoded, Relayed, Reassembles, InHorizon, FrameKey;
  }

  lemma NotForMe(n: Node, h: Header, body: Bytes, rssi: I8, senderMac: Mac, now: nat)
    requires ValidMeshBody(h.kind, body) && !ForMe(h, body, n.id)
    ensures Reassembles(n, n, h, body, rssi, senderMac, now)
  {
  }

  /** Reassembly does not look at the duplicate filter. */
  lemma HistoryApart(n: Node, n': Node, h: Header, body: Bytes, rssi: I8, senderMac: Mac, now: nat, n'': Node)
    requires ValidMeshBody(h.kind, body) && Reassembles(n, n', h, body, rssi, senderMac, now)
    requires n'' == n'.(history := n''.history)
    ensures Reassembles(n, n'', h, body, rssi, senderMac, now)
  {
    hide Pushed, Completed, Delivers;
  }
}
