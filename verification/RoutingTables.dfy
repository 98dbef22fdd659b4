/** The neighbour and routing tables as the firmware keeps them, in fixed arrays. */
module RoutingTables {
  import opened Wrappers
  import opened Octets
  import opened Clock
  import opened LinkMetrics
  import opened Routing

  datatype Neighbor = Neighbor(used: bool, mac: Mac, lastSeenMs: U32, link: LinkStats)

  const NO_NEIGHBOR := Neighbor(false, ZERO_MAC, 0, NEW_LINK)

  function PruneNeighbor(n: Neighbor, nowMs: U32): Neighbor {
    if n.used && Elapsed(nowMs, n.lastSeenMs) > NEIGHBOR_EXPIRE_MS then NO_NEIGHBOR else n
  }

  /** Exactly neighbours not heard for more than 60 s go. */
  ghost predicate Forgets(n: Neighbor, n': Neighbor, nowMs: U32) {
    && (n.used && Elapsed(nowMs, n.lastSeenMs) > 60000 ==> !n'.used)
    && (!n.used || Elapsed(nowMs, n.lastSeenMs) <= 60000 ==> n' == n)
  }

  lemma ForgetsOld(n: Neighbor, nowMs: U32)
    ensures Forgets(n, PruneNeighbor(n, nowMs), nowMs)
  {
  }

  function PrunedNeighbors(ns: seq<Neighbor>, nowMs: U32): (r: seq<Neighbor>)
    ensures |r| == |ns|
  {
    seq(|ns|, i requires 0 <= i < |ns| => PruneNeighbor(ns[i], nowMs))
  }

  predicate NeighborAt(ns: seq<Neighbor>, i: nat, mac: Mac) { i < |ns| && ns[i].used && ns[i].mac == mac }

  /** Each neighbour has one entry, and its statistics are in range. */
  ghost predicate NeighborsOk(ns: seq<Neighbor>) {
    && (forall i, j :: 0 <= i < j < |ns| && ns[i].used && ns[j].used ==> ns[i].mac != ns[j].mac)
    && (forall i :: 0 <= i < |ns| && ns[i].used ==> InRange(ns[i].link))
  }

  function NeighborIndex(ns: seq<Neighbor>, mac: Mac, from: nat := 0): (i: nat)
    requires from <= |ns|
    ensures from <= i <= |ns|
    ensures i < |ns| ==> NeighborAt(ns, i, mac)
    ensures forall j :: from <= j < i ==> !NeighborAt(ns, j, mac)
    decreases |ns| - from
  {
    if from == |ns| || NeighborAt(ns, from, mac) then from else NeighborIndex(ns, mac, from + 1)
  }

  /** An unused entry, or the neighbour heard longest ago. */
  ghost predicate ReplaceableNeighbor(ns: seq<Neighbor>, i: nat, nowMs: U32) {
    && i < |ns|
    && (ns[i].used ==> forall j :: 0 <= j < |ns| ==>
          ns[j].used && Elapsed(nowMs, ns[j].lastSeenMs) <= Elapsed(nowMs, ns[i].lastSeenMs))
  }

  /** The neighbours after hearing a frame, given the entry for the sender. */
  function HeardFrom(ns: seq<Neighbor>, slot: nat, mac: Mac, rssi: I8, nowMs: U32): (r: seq<Neighbor>)
    requires slot < |ns|
    ensures |r| == |ns|
  {
    var link := if NeighborAt(ns, slot, mac) then ns[slot].link else NEW_LINK;
    ns[slot := Neighbor(true, mac, nowMs, UpdateRssi(link, rssi))]
  }

  lemma HeardFromOk(ns: seq<Neighbor>, slot: nat, mac: Mac, rssi: I8, nowMs: U32)
    requires NeighborsOk(ns) && slot < |ns|
    requires slot == NeighborIndex(ns, mac) || NeighborIndex(ns, mac) == |ns|
    ensures NeighborsOk(HeardFrom(ns, slot, mac, rssi, nowMs))
  {
    hide UpdateRssi, InRange;
    forall j | 0 <= j < |ns| && j != slot && ns[j].used
      ensures ns[j].mac != mac
    {
      assert NeighborIndex(ns, mac) == |ns| ==> !NeighborAt(ns, j, mac);
      assert NeighborIndex(ns, mac) == slot ==> NeighborAt(ns, slot, mac);
    }
    var link := if NeighborAt(ns, slot, mac) then ns[slot].link else NEW_LINK;
    assert InRange(link) by { NewLinkInRange(); }
    hide NeighborIndex;
  }

  lemma NewLinkInRange()
    ensures InRange(NEW_LINK)
  {
  }

  /** A transmission result to a neighbour. */
  datatype TxResultItem = TxResultItem(mac: Option<Mac>, success: bool)

  function AfterResult(n: Neighbor, success: bool): Neighbor {
    n.(link := UpdateTxEtx(n.link, success).(consecutiveTxFailures := CountFailures(n.link, success)))
  }

  function NeighborsAfter(ns: seq<Neighbor>, item: TxResultItem): (r: seq<Neighbor>)
    ensures |r| == |ns|
  {
    if item.mac.None? then ns
    else
      var i := NeighborIndex(ns, item.mac.value);
      if i == |ns| then ns else ns[i := AfterResult(ns[i], item.success)]
  }

  /** A result purges its neighbour when it makes two consecutive failures. */
  predicate Purges(ns: seq<Neighbor>, item: TxResultItem): (r: bool)
    ensures r ==> item.mac.Some?
  {
    item.mac.Some? &&
    var i := NeighborIndex(ns, item.mac.value);
    i < |ns| && AfterResult(ns[i], item.success).link.consecutiveTxFailures >= 2
  }

  function RoutesAfter(rs: seq<Route>, ns: seq<Neighbor>, item: TxResultItem, nowMs: U32): seq<Route> {
    if Purges(ns, item) then Purged(rs, item.mac.value, nowMs) else rs
  }

  /** A result together with the time at which it is recorded. */
  type Recorded = (TxResultItem, U32)

  function NeighborsRun(ns: seq<Neighbor>, items: seq<Recorded>): (r: seq<Neighbor>)
    ensures |r| == |ns|
  {
    if items == [] then ns else NeighborsAfter(NeighborsRun(ns, items[..|items| - 1]), items[|items| - 1].0)
  }

  /** The purges that results cause, in order. */
  function PurgeOps(ns: seq<Neighbor>, items: seq<Recorded>): (ops: seq<RouteOp>)
    ensures forall k :: 0 <= k < |ops| ==> ops[k].Purge?
  {
    if items == [] then []
    else
      var front, last := items[..|items| - 1], items[|items| - 1];
      PurgeOps(ns, front) + if Purges(NeighborsRun(ns, front), last.0) then [Purge(last.0.mac.value, last.1)] else []
  }

  lemma RecordOneMore(rs: seq<Route>, ns: seq<Neighbor>, items: seq<Recorded>, i: nat, self: U32)
    requires i < |items|
    ensures NeighborsRun(ns, items[..i + 1]) == NeighborsAfter(NeighborsRun(ns, items[..i]), items[i].0)
    ensures RunFrom(rs, PurgeOps(ns, items[..i + 1]), self)
            == RoutesAfter(RunFrom(rs, PurgeOps(ns, items[..i]), self), NeighborsRun(ns, items[..i]), items[i].0,
                           items[i].1)
  {
    hide Purges, Purged, NeighborsAfter, RunFrom;
    var front, ops := items[..i + 1][..i], PurgeOps(ns, items[..i]);
    assert front == items[..i];
    if Purges(NeighborsRun(ns, front), items[i].0) {
      var op := Purge(items[i].0.mac.value, items[i].1);
      assert PurgeOps(ns, items[..i + 1]) == ops + [op];
      hide PurgeOps;
      RunFromOne(rs, ops, op, self);
    } else {
      assert PurgeOps(ns, items[..i + 1]) == ops;
    }
  }

  // ---------- Learning ----------

  /** Where an existing neighbour is, or one that gives way. */
  ghost predicate NeighborGoesTo(ns: seq<Neighbor>, mac: Mac, slot: nat, clockMs: U32) {
    && slot < |ns|
    && (if NeighborIndex(ns, mac) < |ns| then slot == NeighborIndex(ns, mac)
        else ReplaceableNeighbor(ns, slot, clockMs))
  }

  ghost predicate RouteGoesTo(rs: seq<Route>, origin: U32, slot: nat, clockMs: U32) {
    && slot < |rs|
    && (if IndexOf(rs, origin) < |rs| then slot == IndexOf(rs, origin) else Replaceable(rs, slot, clockMs))
  }

  /** What the tables learn from a frame with this origin, heard from this neighbour: one neighbour and one route. */
  ghost predicate Learns(rs: seq<Route>, ns: seq<Neighbor>, rs': seq<Route>, ns': seq<Neighbor>, self: U32, origin: U32,
                         mac: Mac, hops: Octet, rssi: I8, nodeId: U32, nowMs: U32, clockMs: U32) {
    if origin == 0 || origin == self then rs' == rs && ns' == ns
    else exists n: nat, r: nat ::
      && NeighborGoesTo(ns, mac, n, clockMs) && RouteGoesTo(rs, origin, r, clockMs)
      && ns' == HeardFrom(ns, n, mac, rssi, nowMs)
      && rs' == Learned(rs, origin, LegOf(ns'[n].link, mac, nodeId, hops, rssi, nowMs), nowMs, r)
  }

  function LegOf(link: LinkStats, mac: Mac, nodeId: U32, hops: Octet, rssi: I8, nowMs: U32): Leg {
    var routeHops := if hops >= 0xFE then 0xFF else hops + 1;
    Leg(mac, nodeId, routeHops, RouteMetric(link, routeHops, UsedRssi(rssi)), nowMs)
  }

  /** One neighbour is heard, and the route of the origin takes a leg one hop longer than the frame's own way, with the
      metric of that neighbour. */
  ghost predicate TakesFrame(rs: seq<Route>, ns: seq<Neighbor>, rs': seq<Route>, ns': seq<Neighbor>, origin: U32,
                             mac: Mac, hops: Octet, rssi: I8, nodeId: U32, nowMs: U32, clockMs: U32) {
    && |ns'| == |ns|
    && exists n: nat, leg: Leg ::
         && HearsNeighbor(ns, ns', n, mac, rssi, nowMs, clockMs)
         && leg.mac == mac && leg.nodeId == nodeId && leg.hops == (if hops < 255 then hops + 1 else 255)
         && leg.metric == RouteMetric(ns'[n].link, leg.hops, if rssi == 0 then -85 else rssi) && leg.learnedMs == nowMs
         && TakesRoute(rs, rs', origin, leg, nowMs, clockMs)
  }

  ghost predicate HearsNeighbor(ns: seq<Neighbor>, ns': seq<Neighbor>, n: nat, mac: Mac, rssi: I8, nowMs: U32,
                                clockMs: U32)
    requires |ns'| == |ns|
  {
    && n < |ns| && (forall j :: 0 <= j < |ns| && j != n ==> ns'[j] == ns[j])
    && ns'[n].used && ns'[n].mac == mac && ns'[n].lastSeenMs == nowMs
    && if NeighborAt(ns, n, mac) then ns'[n].link == UpdateRssi(ns[n].link, rssi)
       else
         && (forall j :: 0 <= j < |ns| ==> !NeighborAt(ns, j, mac)) && ReplaceableNeighbor(ns, n, clockMs)
         && ns'[n].link == UpdateRssi(NEW_LINK, rssi)
  }

  lemma LearnsTakesFrame(rs: seq<Route>, ns: seq<Neighbor>, rs': seq<Route>, ns': seq<Neighbor>, self: U32, origin: U32,
                         mac: Mac, hops: Octet, rssi: I8, nodeId: U32, nowMs: U32, clockMs: U32)
    requires Learns(rs, ns, rs', ns', self, origin, mac, hops, rssi, nodeId, nowMs, clockMs)
    requires AllLive(rs, nowMs) && origin != 0 && origin != self
    ensures TakesFrame(rs, ns, rs', ns', origin, mac, hops, rssi, nodeId, nowMs, clockMs)
  {
    hide Learned, RouteMetric, UpdateRssi, AllLive, TakesRoute, IndexOf, NeighborIndex, Replaceable,
         ReplaceableNeighbor;
    var n: nat, r: nat :|
      && NeighborGoesTo(ns, mac, n, clockMs) && RouteGoesTo(rs, origin, r, clockMs)
      && ns' == HeardFrom(ns, n, mac, rssi, nowMs)
      && rs' == Learned(rs, origin, LegOf(ns'[n].link, mac, nodeId, hops, rssi, nowMs), nowMs, r);
    var leg := LegOf(ns'[n].link, mac, nodeId, hops, rssi, nowMs);
    LearnedTakesRoute(rs, origin, leg, nowMs, r, clockMs);
    assert HearsNeighbor(ns, ns', n, mac, rssi, nowMs, clockMs);
  }

  // ---------- What a result does ----------

  /** The neighbour of a result takes it into its statistics, with a count of failures in a row; a failure that is not
      the first in a row takes it out of every route. Nothing else changes. */
  ghost predicate Records(rs: seq<Route>, ns: seq<Neighbor>, rs': seq<Route>, ns': seq<Neighbor>, item: TxResultItem,
                          nowMs: U32) {
    && |rs'| == |rs| && |ns'| == |ns|
    && (forall i :: 0 <= i < |ns| ==>
          if item.mac.Some? && NeighborAt(ns, i, item.mac.value) then
            ns'[i] == ns[i].(link := UpdateTxEtx(ns[i].link, item.success).(consecutiveTxFailures :=
                        if item.success then 0
                        else if ns[i].link.consecutiveTxFailures < 255 then ns[i].link.consecutiveTxFailures + 1
                        else 255))
          else ns'[i] == ns[i])
    && if FailsAgain(ns, item) then forall j :: 0 <= j < |rs| ==> Loses(rs[j], rs'[j], item.mac.value, nowMs)
       else rs' == rs
  }

  ghost predicate FailsAgain(ns: seq<Neighbor>, item: TxResultItem) {
    && item.mac.Some? && !item.success
    && exists i: nat :: NeighborAt(ns, i, item.mac.value) && ns[i].link.consecutiveTxFailures >= 1
  }

  lemma ResultRecords(rs: seq<Route>, ns: seq<Neighbor>, item: TxResultItem, nowMs: U32)
    requires NeighborsOk(ns)
    ensures Records(rs, ns, RoutesAfter(rs, ns, item, nowMs), NeighborsAfter(ns, item), item, nowMs)
  {
    hide UpdateTxEtx, Loses, PurgeRoute, InRange;
    if item.mac.Some? {
      var i := NeighborIndex(ns, item.mac.value);
      forall j: nat | NeighborAt(ns, j, item.mac.value)
        ensures j == i
      {
      }
      forall j | 0 <= j < |rs|
        ensures Loses(rs[j], PurgeRoute(rs[j], item.mac.value, nowMs), item.mac.value, nowMs)
      {
        PurgeLoses(rs[j], item.mac.value, nowMs);
      }
      assert FailsAgain(ns, item) <==> Purges(ns, item);
    }
  }

  // ---------- What a relay does ----------

  /** What is recorded around one transmission: late results before it, and its own result if that comes in time. */
  datatype Radio = Radio(late: seq<Recorded>, own: Option<Recorded>) {
    function Results(): seq<Recorded> { late + if own.Some? then [own.value] else [] }

    predicate Succeeds() { own.Some? && own.value.0.success }
  }

  /** One unicast attempt: the clock at selection, and its transmission. */
  datatype Attempt = Attempt(clockMs: U32, radio: Radio)

  /** A used route for the destination whose primary leg is non-zero and unexpired. */
  predicate LiveRoute(r: Route, dst: U32, nowMs: U32) { r.used && r.dst == dst && LegValid(r.primary, nowMs) }

  /** The route that selection returns. */
  function Chosen(rs: seq<Route>, dst: U32, nowMs: U32, self: U32): Option<Route> {
    if dst == 0 || dst == self then None
    else
      var i := IndexOf(rs, dst);
      if i == |rs| || !Alive(rs[i], nowMs) then None else Some(SelectFrom(rs[i], nowMs))
  }

  /** Where a relay sends next: the primary of the chosen route, unless that is where the frame came from. */
  function Hop(rs: seq<Route>, dst: U32, sender: Mac, nowMs: U32, self: U32): Option<Mac> {
    match Chosen(rs, dst, nowMs, self)
    case None => None
    case Some(r) => if r.primary.mac == sender then None else Some(r.primary.mac)
  }

  datatype RelayStatus = Trying | NoHop | Reached

  datatype Relay = Relay(routes: seq<Route>, neighbors: seq<Neighbor>, tried: seq<Mac>, status: RelayStatus)

  function TryHop(s: Relay, a: Attempt, dst: U32, sender: Mac, self: U32): Relay {
    if s.status != Trying then s
    else
      var rs := After(s.routes, Select(dst, a.clockMs), self);
      match Hop(s.routes, dst, sender, a.clockMs, self)
      case None => s.(routes := rs, status := NoHop)
      case Some(mac) =>
        Relay(RunFrom(rs, PurgeOps(s.neighbors, a.radio.Results()), self), NeighborsRun(s.neighbors, a.radio.Results()),
              s.tried + [mac], if a.radio.Succeeds() then Reached else Trying)
  }

  /** The state of a relay after some attempts. */
  function Relays(rs: seq<Route>, ns: seq<Neighbor>, dst: U32, sender: Mac, self: U32, script: seq<Attempt>): Relay {
    if script == [] then Relay(rs, ns, [], Trying)
    else TryHop(Relays(rs, ns, dst, sender, self, script[..|script| - 1]), script[|script| - 1], dst, sender, self)
  }

  lemma RelayOneMore(rs: seq<Route>, ns: seq<Neighbor>, dst: U32, sender: Mac, self: U32, script: seq<Attempt>, k: nat)
    requires k < |script|
    ensures Relays(rs, ns, dst, sender, self, script[..k + 1])
            == TryHop(Relays(rs, ns, dst, sender, self, script[..k]), script[k], dst, sender, self)
  {
    hide TryHop;
    assert script[..k + 1][..k] == script[..k];
  }

  /** Once a relay has ended, nothing more happens. */
  lemma {:induction false} RelayEnds(rs: seq<Route>, ns: seq<Neighbor>, dst: U32, sender: Mac, self: U32,
                                     script: seq<Attempt>, k: nat, n: nat)
    requires k <= n <= |script| && Relays(rs, ns, dst, sender, self, script[..k]).status != Trying
    ensures Relays(rs, ns, dst, sender, self, script[..n]) == Relays(rs, ns, dst, sender, self, script[..k])
    decreases n
  {
    hide Relays;
    if k < n {
      RelayEnds(rs, ns, dst, sender, self, script, k, n - 1);
      RelayOneMore(rs, ns, dst, sender, self, script, n - 1);
    }
  }

  /** An attempt goes to the hop of the tables as they are then. */
  ghost predicate HopTaken(rs: seq<Route>, ns: seq<Neighbor>, dst: U32, sender: Mac, self: U32, script: seq<Attempt>,
                           k: nat, hop: Option<Mac>)
    requires k < |script|
  {
    var s := Relays(rs, ns, dst, sender, self, script[..k]);
    s.status == Trying && Hop(s.routes, dst, sender, script[k].clockMs, self) == hop
  }

  /** The shape of every relay after n attempts: they go to the hops of the tables as they are then, all but the last
      fail, and trying ends exactly with a success, with no hop left, or with the attempts. */
  lemma {:induction false} RelayShape(rs: seq<Route>, ns: seq<Neighbor>, dst: U32, sender: Mac, self: U32,
                                      script: seq<Attempt>, n: nat)
    requires n <= |script|
    ensures var o := Relays(rs, ns, dst, sender, self, script[..n]);
      && |o.tried| <= n
      && (forall k :: 0 <= k < |o.tried| ==>
            && HopTaken(rs, ns, dst, sender, self, script, k, Some(o.tried[k]))
            && (script[k].radio.Succeeds() <==> k == |o.tried| - 1 && o.status == Reached))
      && (o.status == Trying ==> |o.tried| == n)
      && (o.status == Reached ==> o.tried != [])
      && (o.status == NoHop ==> |o.tried| < n && HopTaken(rs, ns, dst, sender, self, script, |o.tried|, None))
  {
    if n == 0 {
      RelayStarts(rs, ns, dst, sender, self, script);
      hide Relays, HopTaken;
    } else {
      hide Relays, HopTaken, TryHop;
      RelayShape(rs, ns, dst, sender, self, script, n - 1);
      RelayOneMore(rs, ns, dst, sender, self, script, n - 1);
      var s := Relays(rs, ns, dst, sender, self, script[..n - 1]);
      if s.status != Trying {
        EndedStays(s, script[n - 1], dst, sender, self);
      } else {
        HopStep(s, script[n - 1], dst, sender, self);
        var hop := Hop(s.routes, dst, sender, script[n - 1].clockMs, self);
        assert HopTaken(rs, ns, dst, sender, self, script, n - 1, hop) by {
          HopIsTaken(rs, ns, dst, sender, self, script, n - 1);
        }
      }
    }
  }

  /** The first attempt goes to the hop of the tables at the start, if there is one. */
  lemma RelayStartsAtHop(rs: seq<Route>, ns: seq<Neighbor>, dst: U32, sender: Mac, self: U32, script: seq<Attempt>)
    requires script != []
    ensures var tried := Relays(rs, ns, dst, sender, self, script).tried;
      match Hop(rs, dst, sender, script[0].clockMs, self)
      case None => tried == []
      case Some(mac) => tried != [] && tried[0] == mac
  {
    RelayShape(rs, ns, dst, sender, self, script, |script|);
    RelayStarts(rs, ns, dst, sender, self, script);
    assert script[..|script|] == script && script[..0] == [];
    hide Hop;
    var o := Relays(rs, ns, dst, sender, self, script);
    assert o.tried != [] ==> HopTaken(rs, ns, dst, sender, self, script, 0, Some(o.tried[0]));
    assert o.tried == [] ==> HopTaken(rs, ns, dst, sender, self, script, 0, None);
  }

  lemma HopIsTaken(rs: seq<Route>, ns: seq<Neighbor>, dst: U32, sender: Mac, self: U32, script: seq<Attempt>, k: nat)
    requires k < |script| && Relays(rs, ns, dst, sender, self, script[..k]).status == Trying
    ensures HopTaken(rs, ns, dst, sender, self, script, k,
                     Hop(Relays(rs, ns, dst, sender, self, script[..k]).routes, dst, sender, script[k].clockMs, self))
  {
    hide Relays, Hop;
  }

  lemma HopStep(s: Relay, a: Attempt, dst: U32, sender: Mac, self: U32)
    requires s.status == Trying
    ensures match Hop(s.routes, dst, sender, a.clockMs, self)
            case None =>
              TryHop(s, a, dst, sender, self).status == NoHop && TryHop(s, a, dst, sender, self).tried == s.tried
            case Some(mac) =>
              && TryHop(s, a, dst, sender, self).status == (if a.radio.Succeeds() then Reached else Trying)
              && TryHop(s, a, dst, sender, self).tried == s.tried + [mac]
  {
    hide After, Hop, PurgeOps, NeighborsRun, RunFrom;
  }

  lemma EndedStays(s: Relay, a: Attempt, dst: U32, sender: Mac, self: U32)
    requires s.status != Trying
    ensures TryHop(s, a, dst, sender, self) == s
  {
  }

  // ---------- Next-hop safety ----------

  /** Some live route of the table for the destination starts with this neighbour. */
  ghost predicate LiveHop(rs: seq<Route>, dst: U32, mac: Mac, nowMs: U32) {
    exists i :: 0 <= i < |rs| && LiveRoute(rs[i], dst, nowMs) && rs[i].primary.mac == mac
  }

  /** Selection finds a live route for the destination in the table, if one of its legs is live. */
  lemma ChosenIsLive(rs: seq<Route>, dst: U32, nowMs: U32, self: U32)
    requires TableOk(rs, self)
    ensures var r := Chosen(rs, dst, nowMs, self);
      && (r.None? <==> !exists i :: 0 <= i < |rs| && rs[i].used && rs[i].dst == dst && Alive(rs[i], nowMs))
      && (r.Some? ==> LiveRoute(r.value, dst, nowMs) && r.value in After(rs, Select(dst, nowMs), self))
  {
    hide Alive, LegsDiffer;
    if dst != 0 && dst != self {
      var i := IndexOf(rs, dst);
      forall j | 0 <= j < |rs| && rs[j].used && rs[j].dst == dst
        ensures j == i
      {
        assert SlotIs(rs, j, dst) && (i < |rs| ==> SlotIs(rs, i, dst));
      }
      if i < |rs| && Alive(rs[i], nowMs) {
        SelectedIsLive(rs[i], nowMs);
        assert After(rs, Select(dst, nowMs), self)[i] == SelectFrom(rs[i], nowMs);
      }
    }
  }

  lemma SelectedIsLive(r: Route, nowMs: U32)
    requires r.used && Alive(r, nowMs)
    ensures LiveRoute(SelectFrom(r, nowMs), r.dst, nowMs)
  {
  }

  /** Every attempt of every relay goes to the live, non-zero primary of a route that is in the table at that moment,
      and never back to where the frame came from. */
  lemma RelayHopsAreLive(rs: seq<Route>, ns: seq<Neighbor>, dst: U32, sender: Mac, self: U32, script: seq<Attempt>,
                         n: nat, k: nat)
    requires TableOk(rs, self) && n <= |script| && k < |Relays(rs, ns, dst, sender, self, script[..n]).tried|
    ensures |Relays(rs, ns, dst, sender, self, script[..n]).tried| <= n
    ensures var s, mac := Relays(rs, ns, dst, sender, self, script[..k]),
                          Relays(rs, ns, dst, sender, self, script[..n]).tried[k];
      && LiveHop(After(s.routes, Select(dst, script[k].clockMs), self), dst, mac, script[k].clockMs)
      && mac != ZERO_MAC && mac != sender
  {
    RelayShape(rs, ns, dst, sender, self, script, n);
    RelayIsRun(rs, ns, dst, sender, self, script[..k]);
    var s := Relays(rs, ns, dst, sender, self, script[..k]);
    hide Relays, After, Chosen, TableOk, Alive;
    ChosenIsLive(s.routes, dst, script[k].clockMs, self);
  }

  /** A relay gives up on unicasting early only when the table has no live route for the destination, or when the one it
      selects leads back. */
  lemma RelayGivesUp(rs: seq<Route>, ns: seq<Neighbor>, dst: U32, sender: Mac, self: U32, script: seq<Attempt>, n: nat)
    requires TableOk(rs, self) && n <= |script| && Relays(rs, ns, dst, sender, self, script[..n]).status == NoHop
    ensures var k := |Relays(rs, ns, dst, sender, self, script[..n]).tried|;
      k < n &&
      var s, clock := Relays(rs, ns, dst, sender, self, script[..k]), script[k].clockMs;
      || (forall i :: 0 <= i < |s.routes| ==>
            !(s.routes[i].used && s.routes[i].dst == dst && Alive(s.routes[i], clock)))
      || dst == 0 || dst == self
      || LiveHop(After(s.routes, Select(dst, clock), self), dst, sender, clock)
  {
    RelayShape(rs, ns, dst, sender, self, script, n);
    var k := |Relays(rs, ns, dst, sender, self, script[..n]).tried|;
    RelayIsRun(rs, ns, dst, sender, self, script[..k]);
    var s := Relays(rs, ns, dst, sender, self, script[..k]);
    hide Relays, After, Chosen, TableOk, Alive;
    ChosenIsLive(s.routes, dst, script[k].clockMs, self);
  }

  /** The operations on the routes that a relay amounts to: selections and purges. */
  function RelayOps(rs: seq<Route>, ns: seq<Neighbor>, dst: U32, sender: Mac, self: U32, script: seq<Attempt>)
    : (ops: seq<RouteOp>)
    ensures forall k :: 0 <= k < |ops| ==> ops[k].Select? || ops[k].Purge?
  {
    if script == [] then []
    else
      var front, a := script[..|script| - 1], script[|script| - 1];
      var s := Relays(rs, ns, dst, sender, self, front);
      RelayOps(rs, ns, dst, sender, self, front) +
      if s.status != Trying then []
      else
        [Select(dst, a.clockMs)]
        + if Hop(s.routes, dst, sender, a.clockMs, self) == None then [] else PurgeOps(s.neighbors, a.radio.Results())
  }

  lemma HopIsRun(s: Relay, a: Attempt, dst: U32, sender: Mac, self: U32)
    requires s.status == Trying
    ensures TryHop(s, a, dst, sender, self).routes
            == RunFrom(s.routes, [Select(dst, a.clockMs)]
                       + if Hop(s.routes, dst, sender, a.clockMs, self) == None then []
                         else PurgeOps(s.neighbors, a.radio.Results()),
                       self)
  {
    var select := [Select(dst, a.clockMs)];
    assert select[..0] == [] && select + [] == select;
    assert RunFrom(s.routes, select, self) == After(s.routes, Select(dst, a.clockMs), self);
    hide After, Hop, PurgeOps, NeighborsRun, RunFrom;
    RunFromAppend(s.routes, select, PurgeOps(s.neighbors, a.radio.Results()), self);
  }

  /** A relay is a run of the routing table, so its invariants hold in between and afterwards. */
  lemma {:induction false} RelayIsRun(rs: seq<Route>, ns: seq<Neighbor>, dst: U32, sender: Mac, self: U32,
                                      script: seq<Attempt>)
    ensures Relays(rs, ns, dst, sender, self, script).routes
            == RunFrom(rs, RelayOps(rs, ns, dst, sender, self, script), self)
    ensures TableOk(rs, self) ==> TableOk(Relays(rs, ns, dst, sender, self, script).routes, self)
  {
    hide After, Hop, TableOk, PurgeOps, NeighborsRun, TryHop;
    if script != [] {
      var front, a := script[..|script| - 1], script[|script| - 1];
      RelayIsRun(rs, ns, dst, sender, self, front);
      var s, ops := Relays(rs, ns, dst, sender, self, front), RelayOps(rs, ns, dst, sender, self, front);
      var more := if s.status != Trying then []
                  else [Select(dst, a.clockMs)]
                       + if Hop(s.routes, dst, sender, a.clockMs, self) == None then []
                         else PurgeOps(s.neighbors, a.radio.Results());
      assert RelayOps(rs, ns, dst, sender, self, script) == ops + more;
      assert Relays(rs, ns, dst, sender, self, script) == TryHop(s, a, dst, sender, self);
      hide Relays, RelayOps, RunFrom;
      RunFromAppend(rs, ops, more, self);
      if s.status == Trying {
        HopIsRun(s, a, dst, sender, self);
      } else {
        EndedStays(s, a, dst, sender, self);
        assert ops + more == ops;
      }
    }
    RunKeepsTable(rs, RelayOps(rs, ns, dst, sender, self, script), self);
  }

  lemma {:induction false} RunKeepsTable(rs: seq<Route>, ops: seq<RouteOp>, self: U32)
    ensures TableOk(rs, self) ==> TableOk(RunFrom(rs, ops, self), self)
  {
    hide TableOk, After;
    if ops != [] && TableOk(rs, self) {
      RunKeepsTable(rs, ops[..|ops| - 1], self);
      AfterOk(RunFrom(rs, ops[..|ops| - 1], self), ops[|ops| - 1], self);
    }
  }

  /** A neighbour that no leg names, because it was purged before the relay or during it, is not tried any more. */
  lemma PurgedNotTried(rs: seq<Route>, ns: seq<Neighbor>, dst: U32, sender: Mac, self: U32, script: seq<Attempt>,
                       n: nat, j: nat, k: nat, mac: Mac)
    requires TableOk(rs, self) && mac != ZERO_MAC && n <= |script|
    requires j <= k < |Relays(rs, ns, dst, sender, self, script[..n]).tried| && j <= n
    requires NobodyNames(Relays(rs, ns, dst, sender, self, script[..j]).routes, mac)
    ensures Relays(rs, ns, dst, sender, self, script[..n]).tried[k] != mac
  {
    hide Relays, After, NobodyNames, TableOk;
    RelayHopsAreLive(rs, ns, dst, sender, self, script, n, k);
    UnnamedStays(rs, ns, dst, sender, self, script, j, k, mac);
    var s := Relays(rs, ns, dst, sender, self, script[..k]);
    AfterNobodyNames(s.routes, Select(dst, script[k].clockMs), self, mac);
    UnnamedIsNoHop(After(s.routes, Select(dst, script[k].clockMs), self), dst, mac, script[k].clockMs);
  }

  lemma UnnamedIsNoHop(rs: seq<Route>, dst: U32, mac: Mac, nowMs: U32)
    requires NobodyNames(rs, mac)
    ensures !LiveHop(rs, dst, mac, nowMs)
  {
  }

  lemma {:induction false} UnnamedStays(rs: seq<Route>, ns: seq<Neighbor>, dst: U32, sender: Mac, self: U32,
                                        script: seq<Attempt>, j: nat, k: nat, mac: Mac)
    requires mac != ZERO_MAC && j <= k <= |script|
    requires NobodyNames(Relays(rs, ns, dst, sender, self, script[..j]).routes, mac)
    ensures NobodyNames(Relays(rs, ns, dst, sender, self, script[..k]).routes, mac)
    decreases k
  {
    hide NobodyNames, Relays;
    if j < k {
      UnnamedStays(rs, ns, dst, sender, self, script, j, k - 1, mac);
      RelayOneMore(rs, ns, dst, sender, self, script, k - 1);
      var s, a := Relays(rs, ns, dst, sender, self, script[..k - 1]), script[k - 1];
      hide After, Hop;
      AfterNobodyNames(s.routes, Select(dst, a.clockMs), self, mac);
      PurgedStaysAway(After(s.routes, Select(dst, a.clockMs), self), PurgeOps(s.neighbors, a.radio.Results()), self,
                      mac);
    }
  }

  /** The own result of an attempt purges its neighbour when it is the second failure in a row; then no later attempt
      of the relay goes there. */
  lemma SecondFailureIsLast(rs: seq<Route>, ns: seq<Neighbor>, dst: U32, sender: Mac, self: U32, script: seq<Attempt>,
                            n: nat, j: nat, k: nat, mac: Mac)
    requires TableOk(rs, self) && mac != ZERO_MAC && n <= |script|
    requires j < k < |Relays(rs, ns, dst, sender, self, script[..n]).tried| && j < n
    requires script[j].radio.own.Some? && script[j].radio.own.value.0 == TxResultItem(Some(mac), false)
    requires var before := NeighborsRun(Relays(rs, ns, dst, sender, self, script[..j]).neighbors, script[j].radio.late);
      NeighborIndex(before, mac) < |before| && before[NeighborIndex(before, mac)].link.consecutiveTxFailures >= 1
    ensures Relays(rs, ns, dst, sender, self, script[..n]).tried[k] != mac
  {
    hide Relays, TableOk, NobodyNames, TryHop, NeighborsRun;
    RelayShape(rs, ns, dst, sender, self, script, n);
    RelayOneMore(rs, ns, dst, sender, self, script, j);
    RelayIsRun(rs, ns, dst, sender, self, script[..j]);
    OwnFailurePurges(Relays(rs, ns, dst, sender, self, script[..j]), script[j], dst, sender, self, mac);
    PurgedNotTried(rs, ns, dst, sender, self, script, n, j + 1, k, mac);
  }

  lemma OwnFailurePurges(s: Relay, a: Attempt, dst: U32, sender: Mac, self: U32, mac: Mac)
    requires TableOk(s.routes, self) && mac != ZERO_MAC && s.status == Trying
    requires Hop(s.routes, dst, sender, a.clockMs, self).Some?
    requires a.radio.own.Some? && a.radio.own.value.0 == TxResultItem(Some(mac), false)
    requires var before := NeighborsRun(s.neighbors, a.radio.late);
      NeighborIndex(before, mac) < |before| && before[NeighborIndex(before, mac)].link.consecutiveTxFailures >= 1
    ensures NobodyNames(TryHop(s, a, dst, sender, self).routes, mac)
  {
    hide After, Hop, NeighborIndex, NobodyNames, TableOk, UpdateTxEtx;
    var rs := After(s.routes, Select(dst, a.clockMs), self);
    var items, n := a.radio.Results(), |a.radio.late|;
    assert items[..n] == a.radio.late && items[..n + 1] == items;
    RecordOneMore(rs, s.neighbors, items, n, self);
    assert Purges(NeighborsRun(s.neighbors, a.radio.late), a.radio.own.value.0);
    hide NeighborsRun, PurgeOps, RunFrom;
    AfterOk(s.routes, Select(dst, a.clockMs), self);
    RunKeepsTable(rs, PurgeOps(s.neighbors, a.radio.late), self);
    PurgedOk(RunFrom(rs, PurgeOps(s.neighbors, a.radio.late), self), mac, a.radio.own.value.1, self);
  }

  // ---------- Broadcasts ----------

  /** All results that some transmissions record. */
  function ResultsOf(casts: seq<Radio>): seq<Recorded> {
    if casts == [] then [] else ResultsOf(casts[..|casts| - 1]) + casts[|casts| - 1].Results()
  }

  function RoutesAfterAll(rs: seq<Route>, ns: seq<Neighbor>, items: seq<Recorded>, self: U32): (r: seq<Route>)
    ensures |r| == |rs|
  {
    RunFrom(rs, PurgeOps(ns, items), self)
  }

  lemma {:induction false} RecordsAppend(rs: seq<Route>, ns: seq<Neighbor>, a: seq<Recorded>, b: seq<Recorded>,
                                         self: U32)
    ensures NeighborsRun(ns, a + b) == NeighborsRun(NeighborsRun(ns, a), b)
    ensures RoutesAfterAll(rs, ns, a + b, self)
            == RoutesAfterAll(RoutesAfterAll(rs, ns, a, self), NeighborsRun(ns, a), b, self)
    decreases |b|
  {
    hide NeighborsAfter, Purges, Purged, RoutesAfter, RunFrom;
    if b == [] {
      assert a + b == a;
      RunNothing(RunFrom(rs, PurgeOps(ns, a), self), self);
    } else {
      var n := |b| - 1;
      RecordsAppend(rs, ns, a, b[..n], self);
      assert (a + b)[..|a| + n] == a + b[..n] && (a + b)[..|a + b|] == a + b && b[..|b|] == b;
      RecordOneMore(rs, ns, a + b, |a| + n, self);
      RecordOneMore(RoutesAfterAll(rs, ns, a, self), NeighborsRun(ns, a), b, n, self);
    }
  }

  lemma RunNothing(rs: seq<Route>, self: U32)
    ensures RunFrom(rs, [], self) == rs
  {
  }

  lemma CastsOneMore(rs: seq<Route>, ns: seq<Neighbor>, casts: seq<Radio>, k: nat, self: U32)
    requires k < |casts|
    ensures ResultsOf(casts[..k + 1]) == ResultsOf(casts[..k]) + casts[k].Results()
    ensures NeighborsRun(ns, ResultsOf(casts[..k + 1]))
            == NeighborsRun(NeighborsRun(ns, ResultsOf(casts[..k])), casts[k].Results())
    ensures RoutesAfterAll(rs, ns, ResultsOf(casts[..k + 1]), self)
            == RoutesAfterAll(RoutesAfterAll(rs, ns, ResultsOf(casts[..k]), self),
                              NeighborsRun(ns, ResultsOf(casts[..k])), casts[k].Results(), self)
  {
    assert casts[..k + 1][..k] == casts[..k];
    hide NeighborsRun, RoutesAfterAll;
    RecordsAppend(rs, ns, ResultsOf(casts[..k]), casts[k].Results(), self);
  }

  // ---------- How the routes evolve ----------

  /** The routes become what some operations make of them, and every leg heard in between is that of one of these
      neighbours. */
  ghost predicate Evolves(rs: seq<Route>, rs': seq<Route>, self: U32, heard: set<Mac>) {
    exists ops :: rs' == RunFrom(rs, ops, self) && HearsOnly(ops, heard)
  }

  ghost predicate HearsOnly(ops: seq<RouteOp>, heard: set<Mac>) {
    forall k :: 0 <= k < |ops| && ops[k].Hear? ==> ops[k].leg.mac in heard
  }

  lemma EvolvesNot(rs: seq<Route>, self: U32, heard: set<Mac>)
    ensures Evolves(rs, rs, self, heard)
  {
    RunNothing(rs, self);
    assert HearsOnly([], heard);
  }

  lemma EvolvesByOps(rs: seq<Route>, ops: seq<RouteOp>, self: U32, heard: set<Mac>)
    requires HearsOnly(ops, heard)
    ensures Evolves(rs, RunFrom(rs, ops, self), self, heard)
  {
  }

  lemma EvolvesByOne(rs: seq<Route>, op: RouteOp, self: U32, heard: set<Mac>)
    requires op.Hear? ==> op.leg.mac in heard
    ensures Evolves(rs, After(rs, op, self), self, heard)
  {
    hide After;
    assert RunFrom(rs, [] + [op], self) == After(rs, op, self) by {
      RunFromOne(rs, [], op, self);
      RunNothing(rs, self);
    }
    assert HearsOnly([] + [op], heard);
  }

  lemma EvolvesOn(a: seq<Route>, b: seq<Route>, c: seq<Route>, self: U32, heard: set<Mac>)
    requires Evolves(a, b, self, heard) && Evolves(b, c, self, heard)
    ensures Evolves(a, c, self, heard)
  {
    hide RunFrom;
    var p :| b == RunFrom(a, p, self) && HearsOnly(p, heard);
    var q :| c == RunFrom(b, q, self) && HearsOnly(q, heard);
    RunFromAppend(a, p, q, self);
    assert HearsOnly(p + q, heard);
  }

  lemma EvolvesWider(rs: seq<Route>, rs': seq<Route>, self: U32, heard: set<Mac>, more: set<Mac>)
    requires Evolves(rs, rs', self, heard) && heard <= more
    ensures Evolves(rs, rs', self, more)
  {
    hide RunFrom;
    var ops :| rs' == RunFrom(rs, ops, self) && HearsOnly(ops, heard);
    assert HearsOnly(ops, more);
  }

  lemma RecordsEvolve(rs: seq<Route>, ns: seq<Neighbor>, items: seq<Recorded>, self: U32)
    ensures Evolves(rs, RoutesAfterAll(rs, ns, items, self), self, {})
  {
    hide RunFrom;
    EvolvesByOps(rs, PurgeOps(ns, items), self, {});
  }

  lemma RelayEvolves(rs: seq<Route>, ns: seq<Neighbor>, dst: U32, sender: Mac, self: U32, script: seq<Attempt>)
    ensures Evolves(rs, Relays(rs, ns, dst, sender, self, script).routes, self, {})
  {
    hide Relays, RelayOps, RunFrom;
    RelayIsRun(rs, ns, dst, sender, self, script);
    EvolvesByOps(rs, RelayOps(rs, ns, dst, sender, self, script), self, {});
  }

  /** Pruning and learning from a frame hears at most the neighbour the frame came from. */
  lemma LearningEvolves(rs: seq<Route>, ns: seq<Neighbor>, rs': seq<Route>, ns': seq<Neighbor>, self: U32, origin: U32,
                        mac: Mac, hops: Octet, rssi: I8, nodeId: U32, nowMs: U32, clockMs: U32)
    requires Learns(Pruned(rs, nowMs), ns, rs', ns', self, origin, mac, hops, rssi, nodeId, nowMs, clockMs)
    ensures Evolves(rs, rs', self, {mac})
  {
    hide Pruned, Learned, NeighborIndex, ReplaceableNeighbor, HeardFrom;
    if origin == 0 || origin == self {
      EvolvesByOne(rs, Prune(nowMs), self, {mac});
    } else {
      var n: nat, r: nat :|
        && NeighborGoesTo(ns, mac, n, clockMs) && RouteGoesTo(Pruned(rs, nowMs), origin, r, clockMs)
        && ns' == HeardFrom(ns, n, mac, rssi, nowMs)
        && rs' == Learned(Pruned(rs, nowMs), origin, LegOf(ns'[n].link, mac, nodeId, hops, rssi, nowMs), nowMs, r);
      EvolvesByOne(rs, Hear(origin, LegOf(ns'[n].link, mac, nodeId, hops, rssi, nowMs), nowMs, r), self, {mac});
    }
  }

  /** No leg names a purged neighbour until a frame from it is heard, and the tables stay well-formed. */
  lemma EvolvingUnnamed(rs: seq<Route>, rs': seq<Route>, self: U32, heard: set<Mac>, mac: Mac)
    requires Evolves(rs, rs', self, heard)
    ensures TableOk(rs, self) ==> TableOk(rs', self)
    ensures mac != ZERO_MAC && NobodyNames(rs, mac) && mac !in heard ==> NobodyNames(rs', mac)
  {
    hide RunFrom, TableOk, NobodyNames;
    var ops :| rs' == RunFrom(rs, ops, self) && HearsOnly(ops, heard);
    RunKeepsTable(rs, ops, self);
    if mac != ZERO_MAC && NobodyNames(rs, mac) && mac !in heard {
      PurgedStaysAway(rs, ops, self, mac);
    }
  }

  /** Results that make the second failure in a row of a neighbour leave no leg that names it. */
  lemma SecondFailureUnnames(rs: seq<Route>, ns: seq<Neighbor>, items: seq<Recorded>, k: nat, self: U32)
    requires TableOk(rs, self)
    requires k < |items| && Purges(NeighborsRun(ns, items[..k]), items[k].0) && items[k].0.mac != Some(ZERO_MAC)
    ensures NobodyNames(RoutesAfterAll(rs, ns, items, self), items[k].0.mac.value)
  {
    hide NeighborsRun, PurgeOps, RunFrom, Evolves, Purged, Purges, NobodyNames, TableOk;
    var mac, mid := items[k].0.mac.value, RoutesAfterAll(rs, ns, items[..k + 1], self);
    RecordOneMore(rs, ns, items, k, self);
    RecordsEvolve(rs, ns, items[..k], self);
    EvolvingUnnamed(rs, RoutesAfterAll(rs, ns, items[..k], self), self, {}, mac);
    PurgedOk(RoutesAfterAll(rs, ns, items[..k], self), mac, items[k].1, self);
    assert items == items[..k + 1] + items[k + 1..];
    RecordsAppend(rs, ns, items[..k + 1], items[k + 1..], self);
    RecordsEvolve(mid, NeighborsRun(ns, items[..k + 1]), items[k + 1..], self);
    EvolvingUnnamed(mid, RoutesAfterAll(rs, ns, items, self), self, {}, mac);
  }

  // ---------- The routes over the life of a node ----------

  /** Whom a call to the node hears: the neighbour whose frame it takes, or nobody. */
  function Heard(sender: Option<Mac>): set<Mac> { if sender.Some? then {sender.value} else {} }

  function AllHeard(senders: seq<Option<Mac>>): (r: set<Mac>)
    ensures forall mac :: mac in r <==> Some(mac) in senders
  {
    if senders == [] then {} else AllHeard(senders[..|senders| - 1]) + Heard(senders[|senders| - 1])
  }

  /** The routes before, between and after any calls to a node, of which some take a frame from a neighbour. */
  ghost predicate Lives(states: seq<seq<Route>>, senders: seq<Option<Mac>>, self: U32) {
    && |states| == |senders| + 1
    && forall i :: 0 <= i < |senders| ==> Evolves(states[i], states[i + 1], self, Heard(senders[i]))
  }

  /** Over any calls the routes are a run of operations that hear no one but the senders of the frames taken. */
  lemma {:induction false} LifeIsRun(states: seq<seq<Route>>, senders: seq<Option<Mac>>, self: U32)
    requires Lives(states, senders, self)
    ensures Evolves(states[0], states[|senders|], self, AllHeard(senders))
  {
    hide Evolves;
    if senders == [] {
      EvolvesNot(states[0], self, {});
    } else {
      var n, all := |senders| - 1, AllHeard(senders);
      LifeIsRun(states[..n + 1], senders[..n], self);
      EvolvesWider(states[0], states[n], self, AllHeard(senders[..n]), all);
      EvolvesWider(states[n], states[n + 1], self, Heard(senders[n]), all);
      EvolvesOn(states[0], states[n], states[n + 1], self, all);
    }
  }

  /** A neighbour that no leg names at some point stays away until the node takes a frame from it. */
  lemma UnnamedUntilHeard(states: seq<seq<Route>>, senders: seq<Option<Mac>>, self: U32, mac: Mac, j: nat, k: nat)
    requires Lives(states, senders, self) && j <= k <= |senders|
    ensures TableOk(states[j], self) ==> TableOk(states[k], self)
    ensures mac != ZERO_MAC && NobodyNames(states[j], mac) && Some(mac) !in senders[j..k] ==>
              NobodyNames(states[k], mac)
  {
    hide Evolves, TableOk, NobodyNames;
    LifeIsRun(states[j..k + 1], senders[j..k], self);
    EvolvingUnnamed(states[j], states[k], self, AllHeard(senders[j..k]), mac);
  }

  /** From the empty table on, only senders of frames that were taken are next hops. */
  lemma OnlySendersAreNamed(states: seq<seq<Route>>, senders: seq<Option<Mac>>, self: U32, mac: Mac)
    requires Lives(states, senders, self) && states[0] == Run(MAX_ROUTES, [], self)
    requires mac != ZERO_MAC && !NobodyNames(states[|senders|], mac)
    ensures Some(mac) in senders
  {
    hide Evolves, TableOk;
    assert NobodyNames(states[0], mac);
    assert senders[0..|senders|] == senders;
    UnnamedUntilHeard(states, senders, self, mac, 0, |senders|);
  }

  lemma NeighborsAfterOk(ns: seq<Neighbor>, item: TxResultItem)
    requires NeighborsOk(ns)
    ensures NeighborsOk(NeighborsAfter(ns, item))
  {
    hide UpdateTxEtx, CountFailures, NeighborIndex;
  }

  class RoutingTables {
    const nodeId: U32
    const routes: array<Route>
    const neighbors: array<Neighbor>

    ghost predicate Valid()
      reads routes, neighbors
    {
      && routes.Length == MAX_ROUTES && neighbors.Length == MAX_NEIGHBORS
      && TableOk(routes[..], nodeId) && NeighborsOk(neighbors[..])
    }

    constructor (nodeId: U32)
      ensures Valid() && fresh(routes) && fresh(neighbors) && this.nodeId == nodeId
      ensures routes[..] == Run(MAX_ROUTES, [], nodeId)
      ensures forall i :: 0 <= i < MAX_NEIGHBORS ==> !neighbors[i].used
    {
      this.nodeId := nodeId;
      routes := new Route[MAX_ROUTES](_ => NO_ROUTE);
      neighbors := new Neighbor[MAX_NEIGHBORS](_ => NO_NEIGHBOR);
    }

    method PruneRoutingTables(nowMs: U32)
      requires Valid()
      modifies routes, neighbors
      ensures Valid() && AllLive(routes[..], nowMs)
      ensures routes[..] == Pruned(old(routes[..]), nowMs)
      ensures neighbors[..] == PrunedNeighbors(old(neighbors[..]), nowMs)
      ensures forall i :: 0 <= i < MAX_ROUTES ==> Prunes(old(routes[i]), routes[i], nowMs)
      ensures forall i :: 0 <= i < MAX_NEIGHBORS ==> Forgets(old(neighbors[i]), neighbors[i], nowMs)
    {
      hide TableOk, NeighborsOk, PruneRoute, PruneNeighbor, Prunes, Forgets;
      for i := 0 to MAX_NEIGHBORS
        invariant routes[..] == old(routes[..])
        invariant forall j :: 0 <= j < i ==> neighbors[j] == PruneNeighbor(old(neighbors[j]), nowMs)
        invariant forall j :: i <= j < MAX_NEIGHBORS ==> neighbors[j] == old(neighbors[j])
      {
        neighbors[i] := PruneNeighbor(neighbors[i], nowMs);
      }
      for i := 0 to MAX_ROUTES
        invariant neighbors[..] == PrunedNeighbors(old(neighbors[..]), nowMs)
        invariant forall j :: 0 <= j < i ==> routes[j] == PruneRoute(old(routes[j]), nowMs)
        invariant forall j :: i <= j < MAX_ROUTES ==> routes[j] == old(routes[j])
      {
        PruneEntry(i, nowMs);
      }
      assert routes[..] == Pruned(old(routes[..]), nowMs);
      forall i | 0 <= i < MAX_ROUTES
        ensures Prunes(old(routes[i]), routes[i], nowMs)
      {
        PrunesRoute(old(routes[i]), nowMs);
      }
      forall i | 0 <= i < MAX_NEIGHBORS
        ensures Forgets(old(neighbors[i]), neighbors[i], nowMs)
      {
        ForgetsOld(old(neighbors[i]), nowMs);
      }
      PrunedOk(old(routes[..]), nowMs, nodeId);
      PrunedNeighborsOk(old(neighbors[..]), nowMs);
    }

    method PruneEntry(i: nat, nowMs: U32)
      requires routes.Length == MAX_ROUTES && i < MAX_ROUTES
      modifies routes
      ensures routes[..] == old(routes[..])[i := PruneRoute(old(routes[i]), nowMs)]
    {
      var r := routes[i];
      if !r.used {
        return;
      }
      var primaryValid := LegValid(r.primary, nowMs);
      var backupValid := LegValid(r.backup, nowMs);
      if !primaryValid && backupValid {
        r := PromoteBackup(r, nowMs);
      }
      if !primaryValid && !backupValid {
        routes[i] := NO_ROUTE;
        return;
      }
      if !backupValid {
        r := r.(backup := NO_LEG);
      }
      routes[i] := r;
    }

    method FindRoute(dst: U32) returns (i: nat)
      requires Valid()
      ensures i == IndexOf(routes[..], dst)
    {
      i := 0;
      while i < MAX_ROUTES && !(routes[i].used && routes[i].dst == dst)
        invariant 0 <= i <= MAX_ROUTES
        invariant IndexOf(routes[..], dst, i) == IndexOf(routes[..], dst)
      {
        assert routes[..][i] == routes[i];
        i := i + 1;
      }
    }

    method FindNeighbor(mac: Mac) returns (i: nat)
      requires Valid()
      ensures i == NeighborIndex(neighbors[..], mac)
    {
      i := 0;
      while i < MAX_NEIGHBORS && !(neighbors[i].used && neighbors[i].mac == mac)
        invariant 0 <= i <= MAX_NEIGHBORS
        invariant NeighborIndex(neighbors[..], mac, i) == NeighborIndex(neighbors[..], mac)
      {
        assert neighbors[..][i] == neighbors[i];
        i := i + 1;
      }
    }

    method RouteSlot(dst: U32, nowMs: U32) returns (slot: nat)
      requires Valid()
      ensures slot < MAX_ROUTES
      ensures IndexOf(routes[..], dst) < MAX_ROUTES ==> slot == IndexOf(routes[..], dst)
      ensures IndexOf(routes[..], dst) == MAX_ROUTES ==> Replaceable(routes[..], slot, nowMs)
    {
      slot := FindRoute(dst);
      if slot < MAX_ROUTES {
        return;
      }
      var oldest := 0;
      for i := 0 to MAX_ROUTES
        invariant slot <= MAX_ROUTES && (slot == MAX_ROUTES <==> i == 0)
        invariant forall j :: 0 <= j < i ==> routes[j].used && Elapsed(nowMs, routes[j].primary.learnedMs) <= oldest
        invariant i > 0 ==> slot < i && oldest == Elapsed(nowMs, routes[slot].primary.learnedMs)
      {
        if !routes[i].used {
          slot := i;
          return;
        }
        var age := Elapsed(nowMs, routes[i].primary.learnedMs);
        if slot == MAX_ROUTES || age > oldest {
          oldest, slot := age, i;
        }
      }
    }

    method NeighborSlot(mac: Mac, nowMs: U32) returns (slot: nat)
      requires Valid()
      ensures slot < MAX_NEIGHBORS
      ensures NeighborIndex(neighbors[..], mac) < MAX_NEIGHBORS ==> slot == NeighborIndex(neighbors[..], mac)
      ensures NeighborIndex(neighbors[..], mac) == MAX_NEIGHBORS ==> ReplaceableNeighbor(neighbors[..], slot, nowMs)
    {
      slot := FindNeighbor(mac);
      if slot < MAX_NEIGHBORS {
        return;
      }
      var oldest := 0;
      for i := 0 to MAX_NEIGHBORS
        invariant slot <= MAX_NEIGHBORS && (slot == MAX_NEIGHBORS <==> i == 0)
        invariant forall j :: 0 <= j < i ==> neighbors[j].used && Elapsed(nowMs, neighbors[j].lastSeenMs) <= oldest
        invariant i > 0 ==> slot < i && oldest == Elapsed(nowMs, neighbors[slot].lastSeenMs)
      {
        if !neighbors[i].used {
          slot := i;
          return;
        }
        var age := Elapsed(nowMs, neighbors[i].lastSeenMs);
        if slot == MAX_NEIGHBORS || age > oldest {
          oldest, slot := age, i;
        }
      }
    }

    /** Learns from a frame, in a table that was pruned at the same instant. `clockMs` is the later reading that
        decides which entries to replace. */
    method LearnRouteFromFrame(originId: U32, senderMac: Mac, hops: Octet, rssi: I8, senderNodeId: U32,
                               nowMs: U32, clockMs: U32)
      requires Valid() && AllLive(routes[..], nowMs)
      modifies routes, neighbors
      ensures Valid()
      ensures Learns(old(routes[..]), old(neighbors[..]), routes[..], neighbors[..], nodeId, originId, senderMac, hops,
                     rssi, senderNodeId, nowMs, clockMs)
      ensures if originId == 0 || originId == nodeId then
                routes[..] == old(routes[..]) && neighbors[..] == old(neighbors[..])
              else
                TakesFrame(old(routes[..]), old(neighbors[..]), routes[..], neighbors[..], originId, senderMac, hops,
                           rssi, senderNodeId, nowMs, clockMs)
    {
      if originId == 0 || originId == nodeId {
        return;
      }
      hide TableOk, NeighborsOk, RouteMetric, UpdateRssi, LearnRoute, TakesFrame, AllLive;
      var neighborSlot := NeighborSlot(senderMac, clockMs);
      assert NeighborGoesTo(neighbors[..], senderMac, neighborSlot, clockMs);
      HeardFromOk(neighbors[..], neighborSlot, senderMac, rssi, nowMs);
      var n := neighbors[neighborSlot];
      if !(n.used && n.mac == senderMac) {
        n := NO_NEIGHBOR.(used := true, mac := senderMac);
      }
      neighbors[neighborSlot] := Neighbor(true, senderMac, nowMs, UpdateRssi(n.link, rssi));
      assert neighbors[..] == HeardFrom(old(neighbors[..]), neighborSlot, senderMac, rssi, nowMs);
      var routeHops := if hops >= 0xFE then 0xFF else hops + 1;
      var leg := Leg(senderMac, senderNodeId, routeHops,
                     RouteMetric(neighbors[neighborSlot].link, routeHops, UsedRssi(rssi)), nowMs);
      assert leg == LegOf(neighbors[..][neighborSlot].link, senderMac, senderNodeId, hops, rssi, nowMs);
      var routeSlot := RouteSlot(originId, clockMs);
      assert RouteGoesTo(routes[..], originId, routeSlot, clockMs);
      LearnedOk(routes[..], originId, leg, nowMs, routeSlot, nodeId);
      var r := routes[routeSlot];
      assert IndexOf(routes[..], originId) == MAX_ROUTES ==> !SlotIs(routes[..], routeSlot, originId);
      if !(r.used && r.dst == originId) {
        r := Route(true, originId, NO_LEG.(learnedMs := clockMs), NO_LEG);
        LearnFresh(r, originId, leg, nowMs);
      }
      routes[routeSlot] := LearnRoute(r, originId, leg, nowMs);
      assert routes[..] == Learned(old(routes[..]), originId, leg, nowMs, routeSlot);
      hide LegOf, Learned, NeighborGoesTo, RouteGoesTo;
      LearnsTakesFrame(old(routes[..]), old(neighbors[..]), routes[..], neighbors[..], nodeId, originId, senderMac,
                       hops, rssi, senderNodeId, nowMs, clockMs);
    }

    /** A route whose primary leg is live at this instant, if the destination has one. */
    method SelectRoute(dst: U32, nowMs: U32) returns (r: Option<Route>)
      requires Valid()
      modifies routes
      ensures Valid() && routes[..] == After(old(routes[..]), Select(dst, nowMs), nodeId)
      ensures r == Chosen(old(routes[..]), dst, nowMs, nodeId)
      ensures r.Some? ==>
                LegValid(r.value.primary, nowMs) && r.value.used && r.value.dst == dst && r.value in routes[..]
      ensures r.Some? ==> exists i: nat ::
                && i < MAX_ROUTES && SlotIs(old(routes[..]), i, dst) && KeepsLive(old(routes[..])[i], r.value, nowMs)
                && routes[..] == old(routes[..])[i := r.value]
      ensures r.None? ==> forall i :: 0 <= i < MAX_ROUTES ==>
                routes[i] == old(routes[i]) || (old(routes[i]).dst == dst && !routes[i].used)
      ensures r.None? <==> dst == 0 || dst == nodeId || (forall i :: 0 <= i < MAX_ROUTES ==>
                !(old(routes[i]).used && old(routes[i]).dst == dst && Alive(old(routes[i]), nowMs)))
    {
      if dst == 0 || dst == nodeId {
        return None;
      }
      var i := FindRoute(dst);
      SelectedOk(routes[..], dst, nowMs, nodeId);
      if i == MAX_ROUTES {
        forall j | 0 <= j < MAX_ROUTES
          ensures !(routes[j].used && routes[j].dst == dst)
        {
          assert !SlotIs(routes[..], j, dst);
        }
        return None;
      }
      assert SlotIs(routes[..], i, dst);
      forall j | 0 <= j < MAX_ROUTES && routes[j].used && routes[j].dst == dst
        ensures j == i
      {
        assert routes[..][j] == routes[j] && routes[..][i] == routes[i];
      }
      var route := routes[i];
      routes[i] := SelectFrom(route, nowMs);
      RefreshingKeepsLive(route, nowMs);
      assert routes[..] == Selected(old(routes[..]), dst, nowMs);
      if !Alive(route, nowMs) {
        return None;
      }
      return Some(routes[i]);
    }

    /** A transmission result updates its neighbour; two consecutive failures purge it from every route. */
    method RecordTxResult(item: TxResultItem, nowMs: U32)
      requires Valid()
      modifies routes, neighbors
      ensures Valid()
      ensures neighbors[..] == NeighborsAfter(old(neighbors[..]), item)
      ensures routes[..] == RoutesAfter(old(routes[..]), old(neighbors[..]), item, nowMs)
      ensures Records(old(routes[..]), old(neighbors[..]), routes[..], neighbors[..], item, nowMs)
      ensures Purges(old(neighbors[..]), item) && item.mac != Some(ZERO_MAC) ==> NobodyNames(routes[..], item.mac.value)
    {
      ResultRecords(routes[..], neighbors[..], item, nowMs);
      hide Records;
      if item.mac.None? {
        return;
      }
      hide TableOk, NeighborsOk, AfterResult, PurgeRoute;
      var mac := item.mac.value;
      var i := FindNeighbor(mac);
      if i == MAX_NEIGHBORS {
        return;
      }
      NeighborsAfterOk(neighbors[..], item);
      neighbors[i] := AfterResult(neighbors[i], item.success);
      assert neighbors[..] == NeighborsAfter(old(neighbors[..]), item);
      if neighbors[i].link.consecutiveTxFailures < 2 {
        return;
      }
      PurgedOk(routes[..], mac, nowMs, nodeId);
      for k := 0 to MAX_ROUTES
        invariant neighbors[..] == NeighborsAfter(old(neighbors[..]), item)
        invariant forall j :: 0 <= j < k ==> routes[j] == PurgeRoute(old(routes[j]), mac, nowMs)
        invariant forall j :: k <= j < MAX_ROUTES ==> routes[j] == old(routes[j])
      {
        routes[k] := PurgeRoute(routes[k], mac, nowMs);
      }
      assert routes[..] == Purged(old(routes[..]), mac, nowMs);
    }

    /** Records results one after the other. */
    method RecordAll(items: seq<Recorded>)
      requires Valid()
      modifies routes, neighbors
      ensures Valid()
      ensures neighbors[..] == NeighborsRun(old(neighbors[..]), items)
      ensures routes[..] == RoutesAfterAll(old(routes[..]), old(neighbors[..]), items, nodeId)
    {
      hide TableOk, NeighborsOk, NeighborsAfter, Purges, Purged;
      ghost var rs, ns := routes[..], neighbors[..];
      for i := 0 to |items|
        invariant Valid()
        invariant neighbors[..] == NeighborsRun(ns, items[..i])
        invariant routes[..] == RunFrom(rs, PurgeOps(ns, items[..i]), nodeId)
      {
        RecordOneMore(rs, ns, items, i, nodeId);
        RecordTxResult(items[i].0, items[i].1);
      }
      assert items[..|items|] == items;
    }

    /** The unicast attempts of a relay. Which hops are tried, what becomes of the tables meanwhile and how it ends
        are those of the specification. */
    method RelayUnicast(dst: U32, senderMac: Mac, attempts: nat, script: seq<Attempt>)
      returns (forwarded: bool, tried: seq<Mac>)
      requires Valid() && 1 <= attempts <= |script|
      modifies routes, neighbors
      ensures Valid()
      ensures var o := Relays(old(routes[..]), old(neighbors[..]), dst, senderMac, nodeId, script[..attempts]);
        && routes[..] == o.routes && neighbors[..] == o.neighbors
        && tried == o.tried && (forwarded <==> o.status == Reached)
    {
      hide TableOk, NeighborsOk, After, Relays, PurgeOps, NeighborsRun, RunFrom;
      ghost var rs, ns := routes[..], neighbors[..];
      RelayStarts(rs, ns, dst, senderMac, nodeId, script);
      forwarded, tried := false, [];
      var route := SelectRoute(dst, script[0].clockMs);
      if route == None || route.value.primary.mac == senderMac {
        RelayStep(rs, ns, dst, senderMac, nodeId, script, 0, attempts);
        return;
      }
      var attempt := 0;
      while attempt < attempts
        invariant Valid() && !forwarded && attempt <= attempts
        invariant var s := Relays(rs, ns, dst, senderMac, nodeId, script[..attempt]);
          && s.status == Trying && tried == s.tried && neighbors[..] == s.neighbors
          && routes[..] == (if attempt == 0 then After(rs, Select(dst, script[0].clockMs), nodeId) else s.routes)
        invariant attempt == 0 ==> route == Chosen(rs, dst, script[0].clockMs, nodeId) && route.Some?
      {
        RelayStep(rs, ns, dst, senderMac, nodeId, script, attempt, attempts);
        if attempt > 0 {
          route := SelectRoute(dst, script[attempt].clockMs);
          if route == None {
            return;
          }
        }
        if route.value.primary.mac == senderMac {
          return;
        }
        tried := tried + [route.value.primary.mac];
        RecordAll(script[attempt].radio.Results());
        if script[attempt].radio.Succeeds() {
          forwarded := true;
          return;
        }
        attempt := attempt + 1;
      }
    }

    /** The unicast attempts for a fragment that starts here: those of a relay that excludes no neighbour. */
    method OriginUnicast(dst: U32, attempts: nat, script: seq<Attempt>)
      returns (sent: bool, tried: seq<Mac>)
      requires Valid() && attempts <= |script|
      modifies routes, neighbors
      ensures Valid()
      ensures var o := Relays(old(routes[..]), old(neighbors[..]), dst, ZERO_MAC, nodeId, script[..attempts]);
        && routes[..] == o.routes && neighbors[..] == o.neighbors
        && tried == o.tried && (sent <==> o.status == Reached)
    {
      hide NeighborsOk, TableOk, After, Relays, PurgeOps, NeighborsRun, RunFrom, Chosen;
      ghost var rs, ns := routes[..], neighbors[..];
      RelayStarts(rs, ns, dst, ZERO_MAC, nodeId, script);
      sent, tried := false, [];
      for attempt := 0 to attempts
        invariant Valid() && !sent
        invariant Relays(rs, ns, dst, ZERO_MAC, nodeId, script[..attempt])
                  == Relay(routes[..], neighbors[..], tried, Trying)
      {
        RelayStep(rs, ns, dst, ZERO_MAC, nodeId, script, attempt, attempts);
        HopAtOrigin(routes[..], dst, script[attempt].clockMs, nodeId);
        var route := SelectRoute(dst, script[attempt].clockMs);
        if route == None {
          return;
        }
        tried := tried + [route.value.primary.mac];
        RecordAll(script[attempt].radio.Results());
        if script[attempt].radio.Succeeds() {
          sent := true;
          return;
        }
      }
    }

    /** Broadcasts up to the first success. */
    method BroadcastUntilSent(casts: seq<Radio>) returns (sent: bool, n: nat)
      requires Valid() && casts != []
      modifies routes, neighbors
      ensures Valid() && 1 <= n <= |casts|
      ensures (forall k :: 0 <= k < n - 1 ==> !casts[k].Succeeds())
      ensures (sent <==> casts[n - 1].Succeeds()) && (!sent ==> n == |casts|)
      ensures neighbors[..] == NeighborsRun(old(neighbors[..]), ResultsOf(casts[..n]))
      ensures routes[..] == RoutesAfterAll(old(routes[..]), old(neighbors[..]), ResultsOf(casts[..n]), nodeId)
    {
      hide TableOk, NeighborsOk, NeighborsRun, ResultsOf, PurgeOps, RunFrom, RoutesAfterAll;
      ghost var rs, ns := routes[..], neighbors[..];
      NoCasts(rs, ns, casts, nodeId);
      sent, n := false, 0;
      while n < |casts|
        invariant Valid() && n <= |casts| && !sent
        invariant forall k :: 0 <= k < n ==> !casts[k].Succeeds()
        invariant neighbors[..] == NeighborsRun(ns, ResultsOf(casts[..n]))
        invariant routes[..] == RoutesAfterAll(rs, ns, ResultsOf(casts[..n]), nodeId)
      {
        CastsOneMore(rs, ns, casts, n, nodeId);
        RecordAll(casts[n].Results());
        n := n + 1;
        if casts[n - 1].Succeeds() {
          sent := true;
          return;
        }
      }
    }

    /** Repeats a broadcast, whether or not it succeeds. */
    method BroadcastAll(casts: seq<Radio>) returns (sent: bool)
      requires Valid()
      modifies routes, neighbors
      ensures Valid() && (sent <==> exists k :: 0 <= k < |casts| && casts[k].Succeeds())
      ensures neighbors[..] == NeighborsRun(old(neighbors[..]), ResultsOf(casts))
      ensures routes[..] == RoutesAfterAll(old(routes[..]), old(neighbors[..]), ResultsOf(casts), nodeId)
    {
      hide TableOk, NeighborsOk, NeighborsRun, ResultsOf, PurgeOps, RunFrom, RoutesAfterAll;
      ghost var rs, ns := routes[..], neighbors[..];
      NoCasts(rs, ns, casts, nodeId);
      sent := false;
      for k := 0 to |casts|
        invariant Valid() && (sent <==> exists i :: 0 <= i < k && casts[i].Succeeds())
        invariant neighbors[..] == NeighborsRun(ns, ResultsOf(casts[..k]))
        invariant routes[..] == RoutesAfterAll(rs, ns, ResultsOf(casts[..k]), nodeId)
      {
        CastsOneMore(rs, ns, casts, k, nodeId);
        RecordAll(casts[k].Results());
        if casts[k].Succeeds() {
          sent := true;
        }
      }
      assert casts[..|casts|] == casts;
    }
  }

  lemma NoCasts(rs: seq<Route>, ns: seq<Neighbor>, casts: seq<Radio>, self: U32)
    ensures NeighborsRun(ns, ResultsOf(casts[..0])) == ns && RoutesAfterAll(rs, ns, ResultsOf(casts[..0]), self) == rs
  {
  }

  /** A live primary is not the zero address, so excluding that excludes nothing. */
  lemma HopAtOrigin(rs: seq<Route>, dst: U32, nowMs: U32, self: U32)
    requires TableOk(rs, self)
    ensures Hop(rs, dst, ZERO_MAC, nowMs, self)
            == match Chosen(rs, dst, nowMs, self) case None => None case Some(r) => Some(r.primary.mac)
  {
    hide Chosen, TableOk, After;
    ChosenIsLive(rs, dst, nowMs, self);
  }

  lemma RelayStarts(rs: seq<Route>, ns: seq<Neighbor>, dst: U32, sender: Mac, self: U32, script: seq<Attempt>)
    ensures Relays(rs, ns, dst, sender, self, script[..0]) == Relay(rs, ns, [], Trying)
  {
  }

  /** One more attempt, which is the last one if it ends the relay. */
  lemma RelayStep(rs: seq<Route>, ns: seq<Neighbor>, dst: U32, sender: Mac, self: U32, script: seq<Attempt>, k: nat,
                  n: nat)
    requires k < n <= |script|
    ensures var s := TryHop(Relays(rs, ns, dst, sender, self, script[..k]), script[k], dst, sender, self);
      && Relays(rs, ns, dst, sender, self, script[..k + 1]) == s
      && (s.status != Trying ==> Relays(rs, ns, dst, sender, self, script[..n]) == s)
  {
    hide Relays, TryHop;
    RelayOneMore(rs, ns, dst, sender, self, script, k);
    if Relays(rs, ns, dst, sender, self, script[..k + 1]).status != Trying {
      RelayEnds(rs, ns, dst, sender, self, script, k + 1, n);
    }
  }

  lemma LearnFresh(r: Route, originId: U32, leg: Leg, nowMs: U32)
    requires r.used && r.primary.mac == ZERO_MAC && r.backup == NO_LEG
    ensures LearnRoute(r, originId, leg, nowMs) == Route(true, originId, leg, NO_LEG)
  {
  }

  lemma PrunedNeighborsOk(ns: seq<Neighbor>, nowMs: U32)
    requires NeighborsOk(ns)
    ensures NeighborsOk(PrunedNeighbors(ns, nowMs))
  {
    hide InRange;
  }
}
