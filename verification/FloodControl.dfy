/** Why floods stop: every relay spends ttl, and a node accepts a frame key once while it remembers it. */
module FloodControl {
  import opened Wrappers
  import opened Counting
  import opened Octets
  import opened Clock
  import opened LinkMetrics
  import opened MeshFrames
  import opened DuplicateFilters
  import opened MeshNodes
  import opened Routing
  import opened RoutingTables

  /** The most transmissions one relayed frame can cause: unicast attempts and then broadcast attempts. */
  const MAX_COPIES := 2 * MAX_FORWARD_ATTEMPTS

  /** The node's sending on stays within that. */
  lemma CopiesBounded(o: Sending, frame: (Header, Bytes), before: Tables, after: Tables, self: U32, senderMac: Mac,
                      fragmentAttempts: nat, busy: bool, script: seq<Attempt>, casts: seq<Radio>)
    requires ValidMeshBody(frame.0.kind, frame.1) && 1 <= fragmentAttempts <= |script| && fragmentAttempts <= |casts|
    requires fragmentAttempts <= MAX_FORWARD_ATTEMPTS
    requires SendsOnBy(o, frame, before, after, self, senderMac, fragmentAttempts, busy, script, casts)
    ensures 1 <= |o.unicasts| + o.floods <= MAX_COPIES
  {
    hide Relays, AfterSending, TableOk;
    RelayShape(before.0, before.1, Destination(frame.0, frame.1), senderMac, self, script,
               AttemptBudget(frame.0.kind, fragmentAttempts, busy));
  }

  /** One transmission in flight, and the nodes it may still reach. Each is reached once or never. */
  datatype Flight = Flight(data: Bytes, pending: set<U32>)

  datatype Air = Air(nodes: map<U32, Node>, flights: seq<Flight>)

  datatype Event =
    | Transmit(sent: Flight)
    | Deliver(flight: nat, id: U32, reached: seq<set<U32>>)
    | Lose(flight: nat, id: U32)

  function Settled(s: Air, i: nat, id: U32): (f: seq<Flight>)
    requires i < |s.flights|
  {
    s.flights[i := s.flights[i].(pending := s.flights[i].pending - {id})]
  }

  function Copies(data: Bytes, reached: seq<set<U32>>): (f: seq<Flight>)
    ensures |f| == |reached|
  {
    seq(|reached|, j requires 0 <= j < |reached| => Flight(data, reached[j]))
  }

  /** A node may transmit anything at all; a delivery is processed as the node processes frames, and what it relays
      goes out in at most MAX_COPIES transmissions; and any delivery may be lost. */
  ghost predicate Step(s: Air, e: Event, s': Air) {
    s'.nodes.Keys == s.nodes.Keys &&
    match e
    case Transmit(f) =>
      f.pending <= s.nodes.Keys && s'.flights == s.flights + [f]
    case Lose(i, id) =>
      i < |s.flights| && id in s.flights[i].pending && s'.flights == Settled(s, i, id) && s'.nodes == s.nodes
    case Deliver(i, id, reached) =>
      && i < |s.flights| && id in s.flights[i].pending && id in s.nodes
      && |reached| <= MAX_COPIES && (forall j :: 0 <= j < |reached| ==> reached[j] <= s.nodes.Keys)
      && exists n', rssi, mac, now, relay ::
        && Receives(s.nodes[id], n', s.flights[i].data, rssi, mac, now, relay)
        && s'.nodes == s.nodes[id := n']
        && s'.flights == Settled(s, i, id) + if relay.None? then [] else Copies(relay.value, reached)
  }

  // ---------- The measure ----------

  /** The ttl that a receiver of the data would see; zero for data no receiver accepts. */
  function TtlOf(data: Bytes): (t: nat)
    ensures t <= MAX_TTL
  {
    if Decoded(data).None? then 0 else Decoded(data).value.0.ttl
  }

  /** One delivery of a frame with this ttl, and all it can lead to among n nodes. */
  function Weight(n: nat, ttl: nat): (w: nat)
    ensures w > 0
  {
    if ttl <= 1 then 1 else 1 + MAX_COPIES * (n * Weight(n, ttl - 1))
  }

  lemma {:induction false} WeightGrows(n: nat, a: nat, b: nat)
    requires 1 <= n && a <= b
    ensures Weight(n, a) <= Weight(n, b)
    decreases b
  {
    if b > 1 && a < b {
      WeightGrows(n, a, b - 1);
      var w := Weight(n, b - 1);
      assert Weight(n, b) == 1 + MAX_COPIES * (n * w);
      hide Weight;
      MulBound(1, n, w, w);
    }
  }

  function Load(n: nat, f: Flight): nat { |f.pending| * Weight(n, TtlOf(f.data)) }

  function Measure(n: nat, flights: seq<Flight>): nat {
    if flights == [] then 0 else Measure(n, flights[..|flights| - 1]) + Load(n, flights[|flights| - 1])
  }

  lemma {:induction false} MeasureAppend(n: nat, a: seq<Flight>, b: seq<Flight>)
    ensures Measure(n, a + b) == Measure(n, a) + Measure(n, b)
  {
    hide Load;
    if b == [] {
      assert a + b == a;
    } else {
      assert (a + b)[..|a + b| - 1] == a + b[..|b| - 1];
      MeasureAppend(n, a, b[..|b| - 1]);
    }
  }

  lemma MeasureUpdate(n: nat, s: seq<Flight>, i: nat, f: Flight)
    requires i < |s|
    ensures Measure(n, s[i := f]) == Measure(n, s) - Load(n, s[i]) + Load(n, f)
  {
    hide Load;
    assert s == s[..i] + ([s[i]] + s[i + 1..]);
    assert s[i := f] == s[..i] + ([f] + s[i + 1..]);
    MeasureAppend(n, s[..i], [s[i]] + s[i + 1..]);
    MeasureAppend(n, s[..i], [f] + s[i + 1..]);
    MeasureAppend(n, [s[i]], s[i + 1..]);
    MeasureAppend(n, [f], s[i + 1..]);
    assert Measure(n, [s[i]]) == Load(n, s[i]) && Measure(n, [f]) == Load(n, f);
  }

  /** Settling one delivery takes one weight off. */
  lemma SettledMeasure(n: nat, s: Air, i: nat, id: U32)
    requires i < |s.flights| && id in s.flights[i].pending
    ensures Measure(n, Settled(s, i, id)) == Measure(n, s.flights) - Weight(n, TtlOf(s.flights[i].data))
  {
    hide Weight, Measure, TtlOf;
    var f := s.flights[i];
    var rest := f.(pending := f.pending - {id});
    MeasureUpdate(n, s.flights, i, rest);
    assert |f.pending| == |rest.pending| + 1;
    assert Load(n, f) == Load(n, rest) + Weight(n, TtlOf(f.data));
  }

  lemma {:induction false} CopiesMeasure(n: nat, data: Bytes, reached: seq<set<U32>>)
    requires forall j :: 0 <= j < |reached| ==> |reached[j]| <= n
    ensures Measure(n, Copies(data, reached)) <= |reached| * (n * Weight(n, TtlOf(data)))
  {
    hide Weight, TtlOf;
    if reached != [] {
      var front, last := reached[..|reached| - 1], reached[|reached| - 1];
      var w := Weight(n, TtlOf(data));
      CopiesMeasure(n, data, front);
      assert Copies(data, reached)[..|reached| - 1] == Copies(data, front);
      assert |last| * w <= n * w;
      assert |reached| * (n * w) == |front| * (n * w) + n * w;
    }
  }

  /** A relayed frame has one unit of ttl less. */
  lemma RelaySpendsTtl(data: Bytes, self: U32)
    requires Decoded(data).Some? && Relayed(data, self).Some?
    ensures TtlOf(data) > 1 && TtlOf(Relayed(data, self).value) == TtlOf(data) - 1
  {
    ForwardedParses(data);
    hide ParseHeader, Forwarded, ValidMeshBody;
  }

  lemma DeliveryLowers(n: nat, data: Bytes, relay: Bytes, reached: seq<set<U32>>)
    requires TtlOf(data) > 1 && TtlOf(relay) == TtlOf(data) - 1 && |reached| <= MAX_COPIES
    requires forall j :: 0 <= j < |reached| ==> |reached[j]| <= n
    ensures Measure(n, Copies(relay, reached)) < Weight(n, TtlOf(data))
  {
    hide TtlOf, Copies, Measure;
    var w := n * Weight(n, TtlOf(relay));
    CopiesMeasure(n, relay, reached);
    assert |reached| * w <= MAX_COPIES * w;
  }

  /** Every delivery or loss lowers the measure, whatever is relayed. */
  lemma EventsLower(s: Air, e: Event, s': Air)
    requires Step(s, e, s') && !e.Transmit?
    ensures Measure(|s.nodes|, s'.flights) < Measure(|s.nodes|, s.flights)
  {
    hide Receives, Weight, Measure, Copies, Settled, TtlOf;
    var n := |s.nodes|;
    SettledMeasure(n, s, e.flight, e.id);
    if e.Deliver? {
      var n', rssi, mac, now, relay :|
        && Receives(s.nodes[e.id], n', s.flights[e.flight].data, rssi, mac, now, relay)
        && s'.flights == Settled(s, e.flight, e.id) + if relay.None? then [] else Copies(relay.value, e.reached);
      if relay.Some? {
        RelayIsRelayed(s.nodes[e.id], n', s.flights[e.flight].data, rssi, mac, now, relay);
        RelaySpendsTtl(s.flights[e.flight].data, s.nodes[e.id].id);
        forall j | 0 <= j < |e.reached|
          ensures |e.reached[j]| <= n
        {
          SubsetSize(e.reached[j], s.nodes.Keys);
        }
        DeliveryLowers(n, s.flights[e.flight].data, relay.value, e.reached);
        MeasureAppend(n, Settled(s, e.flight, e.id), Copies(relay.value, e.reached));
      } else {
        assert s'.flights == Settled(s, e.flight, e.id);
      }
    }
  }

  /** What one transmission can add: it reaches at most every node, with at most the largest ttl. */
  lemma TransmitAdds(s: Air, e: Event, s': Air)
    requires Step(s, e, s') && e.Transmit?
    ensures Measure(|s.nodes|, s'.flights) <= Measure(|s.nodes|, s.flights) + |s.nodes| * Weight(|s.nodes|, MAX_TTL)
  {
    hide Weight, TtlOf;
    var n, f := |s.nodes|, e.sent;
    SubsetSize(f.pending, s.nodes.Keys);
    assert (s.flights + [f])[..|s.flights|] == s.flights;
    if n == 0 {
      assert Load(n, f) == 0;
    } else {
      WeightGrows(n, TtlOf(f.data), MAX_TTL);
      MulBound(|f.pending|, n, Weight(n, TtlOf(f.data)), Weight(n, MAX_TTL));
    }
  }

  lemma MulBound(a: nat, b: nat, x: nat, y: nat)
    requires a <= b && x <= y
    ensures a * x <= b * y
  {
    assert a * x <= b * x <= b * y;
  }

  // ---------- Whole runs ----------

  ghost predicate IsRun(states: seq<Air>, events: seq<Event>) {
    && |states| == |events| + 1
    && forall i :: 0 <= i < |events| ==> Step(states[i], events[i], states[i + 1])
  }

  function Transmissions(events: seq<Event>): (n: nat)
    ensures n <= |events|
  {
    if events == [] then 0
    else Transmissions(events[..|events| - 1]) + if events[|events| - 1].Transmit? then 1 else 0
  }

  /** Floods quiesce: in every run the deliveries and losses are bounded by what was in flight at the start and by what
      nodes sent on their own account; relaying cannot keep a frame alive, even with no duplicate filter at all. */
  lemma {:induction false} FloodsQuiesce(states: seq<Air>, events: seq<Event>)
    requires IsRun(states, events)
    ensures states[|events|].nodes.Keys == states[0].nodes.Keys
    ensures var n := |states[0].nodes|;
      |events| - Transmissions(events) + Measure(n, states[|events|].flights)
      <= Measure(n, states[0].flights) + Transmissions(events) * (n * Weight(n, MAX_TTL))
  {
    hide Step, Measure, Weight;
    if events != [] {
      var last := |events| - 1;
      FloodsQuiesce(states[..last + 1], events[..last]);
      var s, e, s' := states[last], events[last], states[last + 1];
      assert Step(s, e, s');
      SameNodes(s, e, s');
      var n := |states[0].nodes|;
      assert |s.nodes| == |s.nodes.Keys| == n;
      if e.Transmit? {
        TransmitAdds(s, e, s');
        assert (Transmissions(events[..last]) + 1) * (n * Weight(n, MAX_TTL))
            == Transmissions(events[..last]) * (n * Weight(n, MAX_TTL)) + n * Weight(n, MAX_TTL);
      } else {
        EventsLower(s, e, s');
      }
    }
  }

  lemma SameNodes(s: Air, e: Event, s': Air)
    requires Step(s, e, s')
    ensures s'.nodes.Keys == s.nodes.Keys
  {
    hide Receives, Settled, Copies;
  }

  /** The air is quiet exactly when the measure is zero. */
  lemma {:induction false} QuietIsZero(n: nat, flights: seq<Flight>)
    ensures Measure(n, flights) == 0 <==> forall i :: 0 <= i < |flights| ==> flights[i].pending == {}
  {
    hide Weight, TtlOf;
    if flights != [] {
      var front, last := flights[..|flights| - 1], flights[|flights| - 1];
      QuietIsZero(n, front);
      assert Load(n, last) == 0 <==> last.pending == {} by {
        if last.pending != {} {
          assert |last.pending| > 0;
        }
      }
      assert flights == front + [last];
    }
  }

  // ---------- Duplicate suppression over a node's whole life ----------

  /** A node receives, sends or announces itself; its partial messages time out, or its application takes a message. */
  ghost predicate NodeStep(n: Node, n': Node) {
    || (exists data, rssi, mac, now, relay :: Receives(n, n', data, rssi, mac, now, relay))
    || (exists dst, appType, payload, ttl, frames :: Originates(n, n', dst, appType, payload, ttl, frames))
    || (exists ttl, info, frame :: Announces(n, n', ttl, info, frame))
    || n' == n.(table := n'.table, waiting := n'.waiting)
  }

  ghost predicate IsLife(states: seq<Node>) {
    forall i :: 0 <= i < |states| - 1 ==> NodeStep(states[i], states[i + 1])
  }

  /** The node accepts the frame, which is the only way it relays or reassembles it. */
  ghost predicate Accepts(n: Node, n': Node, data: Bytes, now: nat) {
    && Decoded(data).Some?
    && var (h, body) := Decoded(data).value;
    && !InHorizon(n.history, FrameKey(h, body), now, DUPLICATE_WINDOW_MS)
    && n'.history == n.history + [Memory(FrameKey(h, body), now)]
  }

  /** Whoever relays or changes anything accepts. */
  lemma EffectIsAcceptance(n: Node, n': Node, data: Bytes, rssi: I8, mac: Mac, now: nat, relay: Option<Bytes>)
    requires Receives(n, n', data, rssi, mac, now, relay) && (relay.Some? || n' != n)
    ensures Accepts(n, n', data, now)
  {
    hide InHorizon, FrameKey, Decoded, Reassembles, Relayed;
  }

  lemma {:induction false} HistoryGrows(states: seq<Node>, i: nat, j: nat)
    requires IsLife(states) && i <= j < |states|
    ensures states[i].history <= states[j].history
  {
    hide Receives, Originates;
    if i < j {
      HistoryGrows(states, i, j - 1);
      var n, n' := states[j - 1], states[j];
      assert NodeStep(n, n');
      if data, rssi, mac, now, relay :| Receives(n, n', data, rssi, mac, now, relay) {
        ReceiveRemembers(n, n', data, rssi, mac, now, relay);
      } else if dst, appType, payload, ttl, frames :| Originates(n, n', dst, appType, payload, ttl, frames) {
        SendRemembers(n, n', dst, appType, payload, ttl, frames);
      }
    }
  }

  lemma ReceiveRemembers(n: Node, n': Node, data: Bytes, rssi: I8, mac: Mac, now: nat, relay: Option<Bytes>)
    requires Receives(n, n', data, rssi, mac, now, relay)
    ensures n.history <= n'.history
  {
    hide InHorizon, FrameKey, Decoded, Reassembles, Relayed;
  }

  lemma SendRemembers(n: Node, n': Node, dst: U32, appType: Octet, payload: Bytes, ttl: Octet, frames: seq<Bytes>)
    requires Originates(n, n', dst, appType, payload, ttl, frames)
    ensures n.history <= n'.history
  {
  }

  /** A node accepts, and hence relays, a frame key at most once until 512 further keys or more than the window of
      30 s have gone by, whatever it receives and sends in between. */
  lemma AcceptedOncePerHorizon(states: seq<Node>, i: nat, j: nat, first: Bytes, again: Bytes, t: nat, u: nat)
    requires IsLife(states) && i < j < |states| - 1
    requires Accepts(states[i], states[i + 1], first, t) && Accepts(states[j], states[j + 1], again, u)
    requires FrameKey(Decoded(first).value.0, Decoded(first).value.1)
             == FrameKey(Decoded(again).value.0, Decoded(again).value.1)
    ensures |states[j].history| > |states[i].history| + CAPACITY || u > t + DUPLICATE_WINDOW_MS
  {
    hide FrameKey, Decoded, IsLife, InHorizon;
    HistoryGrows(states, i + 1, j);
    var (h, body) := Decoded(first).value;
    var key := FrameKey(h, body);
    var before, later := states[i + 1].history, states[j].history;
    assert before[|states[i].history|] == Memory(key, t);
    RememberedUntil(later, |states[i].history|, t, u);
  }

  lemma RememberedUntil(history: seq<Memory>, h: nat, t: nat, u: nat)
    requires h < |history| && history[h].at == t && !InHorizon(history, history[h].key, u, DUPLICATE_WINDOW_MS)
    ensures |history| > h + CAPACITY || u > t + DUPLICATE_WINDOW_MS
  {
    if |history| <= h + CAPACITY {
      assert Recent(history, h);
    }
  }
}
