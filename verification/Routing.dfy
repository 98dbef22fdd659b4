/** The routing table: primary and backup legs per destination, learning with hysteresis, promotion, expiry,
    and purging after transmission failures. Each operation is first a function on the entries. */
module Routing {
  import opened Octets
  import opened Clock
  import opened LinkMetrics

  const ZERO_MAC: Mac := 0
  const MAX_ROUTES := 96
  const MAX_NEIGHBORS := 48
  const ROUTE_EXPIRE_MS := 45000
  const NEIGHBOR_EXPIRE_MS := 60000

  /** One way to a destination. */
  datatype Leg = Leg(mac: Mac, nodeId: U32, hops: Octet, metric: U16, learnedMs: U32)

  const NO_LEG := Leg(ZERO_MAC, 0, 0, 0, 0)

  datatype Route = Route(used: bool, dst: U32, primary: Leg, backup: Leg)

  const NO_ROUTE := Route(false, 0, NO_LEG, NO_LEG)

  predicate LegValid(l: Leg, nowMs: U32) { l.mac != ZERO_MAC && Elapsed(nowMs, l.learnedMs) <= ROUTE_EXPIRE_MS }

  // ---------- Operations on one entry ----------

  function PromoteBackup(r: Route, nowMs: U32): Route {
    if LegValid(r.backup, nowMs) then r.(primary := r.backup, backup := NO_LEG) else r
  }

  /** What pruning and selecting have in common: promote or clear the backup. */
  function Refreshed(r: Route, nowMs: U32): Route {
    if LegValid(r.primary, nowMs) then
      if LegValid(r.backup, nowMs) then r else r.(backup := NO_LEG)
    else PromoteBackup(r, nowMs)
  }

  predicate Alive(r: Route, nowMs: U32) { LegValid(r.primary, nowMs) || LegValid(r.backup, nowMs) }

  function PruneRoute(r: Route, nowMs: U32): Route {
    if !r.used then r else if Alive(r, nowMs) then Refreshed(r, nowMs) else NO_ROUTE
  }

  function SelectFrom(r: Route, nowMs: U32): Route {
    if Alive(r, nowMs) then Refreshed(r, nowMs) else r.(used := false, dst := 0)
  }

  /** Removes a neighbour that keeps failing from both legs. */
  function PurgeRoute(r: Route, mac: Mac, nowMs: U32): Route {
    if !r.used then r
    else
      var r1 := if r.backup.mac == mac then r.(backup := r.backup.(mac := ZERO_MAC, learnedMs := 0)) else r;
      if r1.primary.mac == mac then
        var r2 := r1.(primary := r1.primary.(mac := ZERO_MAC));
        if LegValid(r2.backup, nowMs) then PromoteBackup(r2, nowMs) else NO_ROUTE
      else r1
  }

  /** A frame from `origin` was heard through `leg.mac`. */
  function LearnRoute(r: Route, origin: U32, leg: Leg, nowMs: U32): Route {
    var empty := !r.used || r.dst == 0 || !LegValid(r.primary, nowMs);
    if empty || r.primary.mac == leg.mac then
      r.(used := true, dst := origin, primary := leg)
    else if leg.metric + ROUTE_HYSTERESIS < r.primary.metric then
      r.(used := true, dst := origin, primary := leg,
         backup := if r.primary.mac != ZERO_MAC then r.primary else r.backup)
    else if || r.backup.mac == leg.mac || !LegValid(r.backup, nowMs)
            || leg.metric + ROUTE_HYSTERESIS < r.backup.metric then
      r.(backup := leg)
    else r
  }

  // ---------- What the operations on one entry mean ----------

  /** A leg is valid exactly while it names a neighbour and is at most 45 s old, until its age wraps. */
  lemma LegAges(l: Leg, at: nat, now: nat)
    requires l.learnedMs == Stamp(at) && at <= now < at + WRAP
    ensures LegValid(l, Stamp(now)) <==> l.mac != 0 && now - at <= 45000
  {
    ElapsedIsAge(now, at);
  }

  /** A live primary stays, and a live backup beside it; a dead primary gives way to a live backup; dead backups go. */
  ghost predicate KeepsLive(r: Route, r': Route, nowMs: U32) {
    && r'.used && r'.dst == r.dst
    && (LegValid(r.primary, nowMs) ==>
          r'.primary == r.primary && r'.backup == if LegValid(r.backup, nowMs) then r.backup else NO_LEG)
    && (!LegValid(r.primary, nowMs) ==>
          LegValid(r.backup, nowMs) && r'.primary == r.backup && r'.backup == NO_LEG)
  }

  /** Pruning and selecting keep what is live; an entry with no live leg ends. */
  lemma RefreshingKeepsLive(r: Route, nowMs: U32)
    requires r.used
    ensures if LegValid(r.primary, nowMs) || LegValid(r.backup, nowMs) then
              KeepsLive(r, PruneRoute(r, nowMs), nowMs) && KeepsLive(r, SelectFrom(r, nowMs), nowMs)
            else
              PruneRoute(r, nowMs) == NO_ROUTE && !SelectFrom(r, nowMs).used
  {
  }

  ghost predicate Prunes(r: Route, r': Route, nowMs: U32) {
    if !r.used then r' == r
    else if LegValid(r.primary, nowMs) || LegValid(r.backup, nowMs) then KeepsLive(r, r', nowMs)
    else r' == NO_ROUTE
  }

  lemma PrunesRoute(r: Route, nowMs: U32)
    ensures Prunes(r, PruneRoute(r, nowMs), nowMs)
  {
  }

  /** A purge takes the neighbour out of both legs and nothing else: a live backup of another neighbour takes the place
      of a primary, and without one the entry ends. */
  ghost predicate Loses(r: Route, r': Route, mac: Mac, nowMs: U32) {
    && (!r.used || (r.primary.mac != mac && r.backup.mac != mac) ==> r' == r)
    && (r.used && r.primary.mac != mac && r.backup.mac == mac ==>
          r' == r.(backup := r.backup.(mac := ZERO_MAC, learnedMs := 0)))
    && (r.used && r.primary.mac == mac ==>
          if r.backup.mac != mac && LegValid(r.backup, nowMs) then r' == Route(true, r.dst, r.backup, NO_LEG)
          else r' == NO_ROUTE)
  }

  lemma PurgeLoses(r: Route, mac: Mac, nowMs: U32)
    ensures Loses(r, PurgeRoute(r, mac, nowMs), mac, nowMs)
  {
  }

  /** An entry with a live primary takes a leg just heard. That of the primary's neighbour replaces it. Any other
      becomes the primary exactly when it is better by more than 48, and then the old primary is the backup; else it
      becomes the backup exactly when that was the same neighbour's, dead, or worse by more than 48. */
  ghost predicate TakesLeg(r: Route, r': Route, leg: Leg, nowMs: U32) {
    && r'.used && r'.dst == r.dst
    && (r.primary.mac == leg.mac ==> r'.primary == leg && r'.backup == r.backup)
    && (r.primary.mac != leg.mac ==>
          && (r'.primary == leg <==> leg.metric + 48 < r.primary.metric)
          && (r'.primary == leg ==> r'.backup == r.primary)
          && (r'.primary != leg ==>
                && r'.primary == r.primary
                && (r'.backup == leg <==>
                      || r.backup.mac == leg.mac || !LegValid(r.backup, nowMs)
                      || leg.metric + 48 < r.backup.metric)
                && (r'.backup != leg ==> r'.backup == r.backup)))
  }

  lemma LearningTakesLeg(r: Route, leg: Leg, nowMs: U32)
    requires r.used && r.dst != 0 && LegValid(r.primary, nowMs)
    ensures TakesLeg(r, LearnRoute(r, r.dst, leg, nowMs), leg, nowMs)
  {
  }

  // ---------- Invariants of one entry ----------

  predicate LegsDiffer(r: Route) { r.used ==> r.primary.mac != r.backup.mac || r.primary.mac == ZERO_MAC }

  predicate NoLegNames(r: Route, mac: Mac) { r.used ==> r.primary.mac != mac && r.backup.mac != mac }

  /** Every operation but learning keeps the legs different. */
  lemma OperationsKeepLegsDifferent(r: Route, mac: Mac, nowMs: U32)
    requires LegsDiffer(r)
    ensures LegsDiffer(PruneRoute(r, nowMs)) && LegsDiffer(SelectFrom(r, nowMs))
            && LegsDiffer(PurgeRoute(r, mac, nowMs))
  {
  }

  /** Learning keeps the legs different exactly when the sender does not stand in a backup whose primary
      has gone: the table must be pruned first. */
  lemma LearningKeepsLegsDifferent(r: Route, origin: U32, leg: Leg, nowMs: U32)
    requires r.used && r.dst != 0 && LegsDiffer(r) && leg.mac != ZERO_MAC
    ensures LegsDiffer(LearnRoute(r, origin, leg, nowMs)) <==>
            LegValid(r.primary, nowMs) || r.primary.mac == leg.mac || r.backup.mac != leg.mac
  {
  }

  /** Only hearing from a neighbour brings it into a leg. */
  lemma OnlyLearningNames(r: Route, mac: Mac, other: Mac, origin: U32, leg: Leg, nowMs: U32)
    requires mac != ZERO_MAC && NoLegNames(r, mac)
    ensures NoLegNames(PruneRoute(r, nowMs), mac) && NoLegNames(SelectFrom(r, nowMs), mac)
    ensures NoLegNames(PurgeRoute(r, other, nowMs), mac)
    ensures r.used && leg.mac != mac ==> NoLegNames(LearnRoute(r, origin, leg, nowMs), mac)
  {
  }

  lemma PurgeRemoves(r: Route, mac: Mac, nowMs: U32)
    requires mac != ZERO_MAC && LegsDiffer(r)
    ensures NoLegNames(PurgeRoute(r, mac, nowMs), mac)
  {
  }

  // ---------- Hysteresis ----------

  /** Learning from frames that neither refresh the primary nor find it expired. */
  function LearnAll(r: Route, frames: seq<(Leg, U32)>): Route {
    if frames == [] then r
    else LearnRoute(LearnAll(r, frames[..|frames| - 1]), r.dst, frames[|frames| - 1].0, frames[|frames| - 1].1)
  }

  ghost predicate Undisturbed(r: Route, frames: seq<(Leg, U32)>) {
    forall i :: 0 <= i < |frames| ==>
      LegValid(LearnAll(r, frames[..i]).primary, frames[i].1) && LearnAll(r, frames[..i]).primary.mac != frames[i].0.mac
  }

  function Switches(r: Route, frames: seq<(Leg, U32)>): nat {
    if frames == [] then 0
    else
      Switches(r, frames[..|frames| - 1])
      + if LearnAll(r, frames).primary == LearnAll(r, frames[..|frames| - 1]).primary then 0 else 1
  }

  /** Each switch of the primary lowers the stored metric by at least 49, so there are at most 1337. */
  lemma {:induction false} HysteresisBoundsSwitches(r: Route, frames: seq<(Leg, U32)>)
    requires r.used && r.dst != 0 && Undisturbed(r, frames)
    ensures LearnAll(r, frames).used && LearnAll(r, frames).dst == r.dst
    ensures LearnAll(r, frames).primary.metric + 49 * Switches(r, frames) <= r.primary.metric
    ensures Switches(r, frames) <= 1337
  {
    if frames != [] {
      var front := frames[..|frames| - 1];
      forall i | 0 <= i < |front|
        ensures LegValid(LearnAll(r, front[..i]).primary, front[i].1)
                && LearnAll(r, front[..i]).primary.mac != front[i].0.mac
      {
        assert front[..i] == frames[..i];
      }
      HysteresisBoundsSwitches(r, front);
    }
  }

  /** And the primary is never worse by more than 48 than any leg heard in between. */
  lemma {:induction false} HysteresisStaysNearBest(r: Route, frames: seq<(Leg, U32)>, k: nat)
    requires r.used && r.dst != 0 && Undisturbed(r, frames) && k < |frames|
    ensures LearnAll(r, frames).primary.metric <= frames[k].0.metric + 48
    decreases |frames|
  {
    hide LearnRoute, Switches;
    var front := frames[..|frames| - 1];
    forall i | 0 <= i < |front|
      ensures LegValid(LearnAll(r, front[..i]).primary, front[i].1)
              && LearnAll(r, front[..i]).primary.mac != front[i].0.mac
    {
      assert front[..i] == frames[..i];
    }
    HysteresisBoundsSwitches(r, front);
    assert frames[..|front|] == front;
    LearningTakesLeg(LearnAll(r, front), frames[|front|].0, frames[|front|].1);
    if k < |front| {
      HysteresisStaysNearBest(r, front, k);
    }
  }

  // ---------- Operations on the table ----------

  predicate SlotIs(rs: seq<Route>, i: nat, dst: U32) { i < |rs| && rs[i].used && rs[i].dst == dst }

  /** At most one used entry per destination, none for zero or for this node, and different legs. */
  ghost predicate TableOk(rs: seq<Route>, self: U32) {
    && (forall i :: 0 <= i < |rs| && rs[i].used ==> rs[i].dst != 0 && rs[i].dst != self)
    && (forall i, j :: 0 <= i < j < |rs| && rs[i].used && rs[j].used ==> rs[i].dst != rs[j].dst)
    && (forall i :: 0 <= i < |rs| ==> LegsDiffer(rs[i]))
  }

  ghost predicate NobodyNames(rs: seq<Route>, mac: Mac) { forall i :: 0 <= i < |rs| ==> NoLegNames(rs[i], mac) }

  ghost predicate AllLive(rs: seq<Route>, nowMs: U32) {
    forall i :: 0 <= i < |rs| && rs[i].used ==> LegValid(rs[i].primary, nowMs)
  }

  function Pruned(rs: seq<Route>, nowMs: U32): (r: seq<Route>)
    ensures |r| == |rs|
  {
    seq(|rs|, i requires 0 <= i < |rs| => PruneRoute(rs[i], nowMs))
  }

  function Purged(rs: seq<Route>, mac: Mac, nowMs: U32): (r: seq<Route>)
    ensures |r| == |rs|
  {
    seq(|rs|, i requires 0 <= i < |rs| => PurgeRoute(rs[i], mac, nowMs))
  }

  /** The first used entry for a destination, or the length of the table. */
  function IndexOf(rs: seq<Route>, dst: U32, from: nat := 0): (i: nat)
    requires from <= |rs|
    ensures from <= i <= |rs|
    ensures i < |rs| ==> SlotIs(rs, i, dst)
    ensures forall j :: from <= j < i ==> !SlotIs(rs, j, dst)
    decreases |rs| - from
  {
    if from == |rs| || SlotIs(rs, from, dst) then from else IndexOf(rs, dst, from + 1)
  }

  function Selected(rs: seq<Route>, dst: U32, nowMs: U32): (r: seq<Route>)
    ensures |r| == |rs|
  {
    var i := IndexOf(rs, dst);
    if i == |rs| then rs else rs[i := SelectFrom(rs[i], nowMs)]
  }

  /** Where a new destination goes: the first unused entry, or else the one learned longest ago. */
  ghost predicate Replaceable(rs: seq<Route>, i: nat, nowMs: U32) {
    && i < |rs|
    && (rs[i].used ==> forall j :: 0 <= j < |rs| ==>
          rs[j].used && Elapsed(nowMs, rs[j].primary.learnedMs) <= Elapsed(nowMs, rs[i].primary.learnedMs))
  }

  /** Learning, given the entry to replace when the destination is new. */
  function Learned(rs: seq<Route>, origin: U32, leg: Leg, nowMs: U32, slot: nat): (r: seq<Route>)
    requires slot < |rs|
    ensures |r| == |rs|
  {
    var i := IndexOf(rs, origin);
    if i < |rs| then rs[i := LearnRoute(rs[i], origin, leg, nowMs)]
    else rs[slot := Route(true, origin, leg, NO_LEG)]
  }

  // ---------- Every reachable table ----------

  datatype RouteOp =
    | Prune(nowMs: U32)
    | Select(dst: U32, nowMs: U32)
    | Purge(mac: Mac, nowMs: U32)
    | Hear(origin: U32, leg: Leg, nowMs: U32, slot: nat)

  predicate Permitted(rs: seq<Route>, op: RouteOp, self: U32) {
    op.Hear? ==> op.origin != 0 && op.origin != self && op.slot < |rs|
  }

  /** Hearing a frame prunes at the same instant before it learns. */
  function After(rs: seq<Route>, op: RouteOp, self: U32): (r: seq<Route>)
    ensures |r| == |rs|
  {
    match op
    case Prune(nowMs) => Pruned(rs, nowMs)
    case Select(dst, nowMs) => if dst == 0 || dst == self then rs else Selected(rs, dst, nowMs)
    case Purge(mac, nowMs) => Purged(rs, mac, nowMs)
    case Hear(origin, leg, nowMs, slot) =>
      if Permitted(rs, op, self) then Learned(Pruned(rs, nowMs), origin, leg, nowMs, slot) else rs
  }

  function Run(n: nat, ops: seq<RouteOp>, self: U32): (r: seq<Route>)
    ensures |r| == n
  {
    if ops == [] then seq(n, _ => NO_ROUTE) else After(Run(n, ops[..|ops| - 1], self), ops[|ops| - 1], self)
  }

  lemma PruneMakesLive(rs: seq<Route>, nowMs: U32)
    ensures AllLive(Pruned(rs, nowMs), nowMs)
  {
  }

  lemma PrunedOk(rs: seq<Route>, nowMs: U32, self: U32)
    requires TableOk(rs, self)
    ensures TableOk(Pruned(rs, nowMs), self) && AllLive(Pruned(rs, nowMs), nowMs)
  {
    PruneMakesLive(rs, nowMs);
    assert forall i :: 0 <= i < |rs| && PruneRoute(rs[i], nowMs).used ==>
        rs[i].used && PruneRoute(rs[i], nowMs).dst == rs[i].dst;
    forall i | 0 <= i < |rs|
      ensures LegsDiffer(PruneRoute(rs[i], nowMs))
    {
      OperationsKeepLegsDifferent(rs[i], 0, nowMs);
    }
    hide PruneRoute, LegsDiffer;
  }

  lemma PurgedOk(rs: seq<Route>, mac: Mac, nowMs: U32, self: U32)
    requires TableOk(rs, self)
    ensures TableOk(Purged(rs, mac, nowMs), self)
    ensures mac != ZERO_MAC ==> NobodyNames(Purged(rs, mac, nowMs), mac)
  {
    assert forall i :: 0 <= i < |rs| && PurgeRoute(rs[i], mac, nowMs).used ==>
        rs[i].used && PurgeRoute(rs[i], mac, nowMs).dst == rs[i].dst;
    forall i | 0 <= i < |rs|
      ensures LegsDiffer(PurgeRoute(rs[i], mac, nowMs))
      ensures mac != ZERO_MAC ==> NoLegNames(PurgeRoute(rs[i], mac, nowMs), mac)
    {
      OperationsKeepLegsDifferent(rs[i], mac, nowMs);
      if mac != ZERO_MAC {
        PurgeRemoves(rs[i], mac, nowMs);
      }
    }
    hide PurgeRoute, LegsDiffer, NoLegNames;
  }

  lemma LearnedOk(rs: seq<Route>, origin: U32, leg: Leg, nowMs: U32, slot: nat, self: U32)
    requires TableOk(rs, self) && AllLive(rs, nowMs) && slot < |rs| && origin != 0 && origin != self
    ensures TableOk(Learned(rs, origin, leg, nowMs, slot), self)
  {
    var i := IndexOf(rs, origin);
    if i < |rs| {
      LearnRouteOk(rs[i], origin, leg, nowMs);
    } else {
      forall j | 0 <= j < |rs| && rs[j].used
        ensures rs[j].dst != origin
      {
        assert !SlotIs(rs, j, origin);
      }
    }
    hide LegValid, IndexOf, LearnRoute;
  }

  /** In a table of live routes, learning changes one entry: that of the origin takes the leg if there is one, and else
      one that may be replaced becomes a route with this leg alone. */
  ghost predicate TakesRoute(rs: seq<Route>, rs': seq<Route>, origin: U32, leg: Leg, nowMs: U32, clockMs: U32) {
    && |rs'| == |rs|
    && exists i: nat ::
         && i < |rs| && SlotIs(rs', i, origin) && (forall j :: 0 <= j < |rs| && j != i ==> rs'[j] == rs[j])
         && if SlotIs(rs, i, origin) then TakesLeg(rs[i], rs'[i], leg, nowMs)
            else
              && (forall j :: 0 <= j < |rs| ==> !SlotIs(rs, j, origin)) && Replaceable(rs, i, clockMs)
              && rs'[i] == Route(true, origin, leg, NO_LEG)
  }

  lemma LearnedTakesRoute(rs: seq<Route>, origin: U32, leg: Leg, nowMs: U32, slot: nat, clockMs: U32)
    requires AllLive(rs, nowMs) && slot < |rs| && origin != 0
    requires IndexOf(rs, origin) == |rs| ==> Replaceable(rs, slot, clockMs)
    ensures TakesRoute(rs, Learned(rs, origin, leg, nowMs, slot), origin, leg, nowMs, clockMs)
  {
    var rs', i := Learned(rs, origin, leg, nowMs, slot), IndexOf(rs, origin);
    if i < |rs| {
      LearningTakesLeg(rs[i], leg, nowMs);
      hide LearnRoute, TakesLeg;
      assert SlotIs(rs', i, origin) by { LearnRouteDst(rs[i], origin, leg, nowMs); }
    } else {
      hide LearnRoute, TakesLeg;
      assert SlotIs(rs', slot, origin);
    }
  }

  lemma LearnRouteDst(r: Route, origin: U32, leg: Leg, nowMs: U32)
    requires r.used && r.dst == origin
    ensures LearnRoute(r, origin, leg, nowMs).used && LearnRoute(r, origin, leg, nowMs).dst == origin
  {
  }

  lemma LearnRouteOk(r: Route, origin: U32, leg: Leg, nowMs: U32)
    requires r.used && r.dst == origin != 0 && LegsDiffer(r) && LegValid(r.primary, nowMs)
    ensures LearnRoute(r, origin, leg, nowMs).dst == origin && LegsDiffer(LearnRoute(r, origin, leg, nowMs))
  {
  }

  lemma SelectedOk(rs: seq<Route>, dst: U32, nowMs: U32, self: U32)
    requires TableOk(rs, self)
    ensures TableOk(Selected(rs, dst, nowMs), self)
  {
    var i := IndexOf(rs, dst);
    if i < |rs| {
      OperationsKeepLegsDifferent(rs[i], 0, nowMs);
      assert SelectFrom(rs[i], nowMs).used ==> SelectFrom(rs[i], nowMs).dst == rs[i].dst;
    }
    hide SelectFrom, IndexOf, LegsDiffer;
  }

  /** The invariant of the routing table in every reachable state. */
  lemma {:induction false} EveryReachableTableOk(n: nat, ops: seq<RouteOp>, self: U32)
    ensures TableOk(Run(n, ops, self), self)
  {
    if ops != [] {
      var rs, op := Run(n, ops[..|ops| - 1], self), ops[|ops| - 1];
      EveryReachableTableOk(n, ops[..|ops| - 1], self);
      AfterOk(rs, op, self);
      hide TableOk;
    }
  }

  lemma AfterOk(rs: seq<Route>, op: RouteOp, self: U32)
    requires TableOk(rs, self)
    ensures TableOk(After(rs, op, self), self)
  {
    hide TableOk, Pruned, Purged, Selected, Learned;
    match op
    case Prune(nowMs) => PrunedOk(rs, nowMs, self);
    case Select(dst, nowMs) => SelectedOk(rs, dst, nowMs, self);
    case Purge(mac, nowMs) => PurgedOk(rs, mac, nowMs, self);
    case Hear(origin, leg, nowMs, slot) =>
      PrunedOk(rs, nowMs, self);
      if Permitted(rs, op, self) {
        LearnedOk(Pruned(rs, nowMs), origin, leg, nowMs, slot, self);
      }
  }

  /** In every run, hearing a frame leaves a live route to its origin that is not worse by
      more than 48 than the leg heard. */
  lemma HearingLeavesNearBest(n: nat, ops: seq<RouteOp>, k: nat, self: U32)
    requires k < |ops| && ops[k].Hear? && Permitted(Run(n, ops[..k], self), ops[k], self)
    requires ops[k].leg.learnedMs == ops[k].nowMs && ops[k].leg.mac != ZERO_MAC
    ensures var rs, origin := Run(n, ops[..k + 1], self), ops[k].origin;
      && (exists i: nat :: i < n && SlotIs(rs, i, origin))
      && forall i: nat :: i < n && SlotIs(rs, i, origin) ==>
           LegValid(rs[i].primary, ops[k].nowMs) && rs[i].primary.metric <= ops[k].leg.metric + 48
  {
    var op, before := ops[k], Pruned(Run(n, ops[..k], self), ops[k].nowMs);
    EveryReachableTableOk(n, ops[..k], self);
    PrunedOk(Run(n, ops[..k], self), op.nowMs, self);
    EveryReachableTableOk(n, ops[..k + 1], self);
    assert ops[..k + 1][..k] == ops[..k];
    hide Pruned, PruneRoute;
    var rs := Learned(before, op.origin, op.leg, op.nowMs, op.slot);
    assert Run(n, ops[..k + 1], self) == rs;
    var at := if IndexOf(before, op.origin) < n then IndexOf(before, op.origin) else op.slot;
    if at == IndexOf(before, op.origin) {
      LearningTakesLeg(before[at], op.leg, op.nowMs);
    }
    hide LearnRoute;
    assert LegValid(op.leg, op.nowMs);
    assert SlotIs(rs, at, op.origin);
    forall i: nat | i < n && SlotIs(rs, i, op.origin)
      ensures i == at
    {
    }
  }

  lemma AfterNobodyNames(rs: seq<Route>, op: RouteOp, self: U32, mac: Mac)
    requires mac != ZERO_MAC && NobodyNames(rs, mac) && !(op.Hear? && op.leg.mac == mac)
    ensures NobodyNames(After(rs, op, self), mac)
  {
    forall i | 0 <= i < |rs|
      ensures NoLegNames(After(rs, op, self)[i], mac)
    {
      OnlyLearningNames(rs[i], mac, if op.Purge? then op.mac else 0, rs[i].dst, NO_LEG, op.nowMs);
      if op.Hear? {
        var r := PruneRoute(rs[i], op.nowMs);
        OnlyLearningNames(r, mac, 0, op.origin, op.leg, op.nowMs);
        assert Pruned(rs, op.nowMs)[i] == r;
      }
    }
  }

  /** Once a neighbour has been purged no leg names it, whatever happens, until a later frame from it is heard. */
  lemma {:induction false} PurgedStaysAway(rs: seq<Route>, ops: seq<RouteOp>, self: U32, mac: Mac)
    requires mac != ZERO_MAC && NobodyNames(rs, mac)
    requires forall k :: 0 <= k < |ops| ==> !(ops[k].Hear? && ops[k].leg.mac == mac)
    ensures NobodyNames(RunFrom(rs, ops, self), mac)
  {
    if ops != [] {
      PurgedStaysAway(rs, ops[..|ops| - 1], self, mac);
      AfterNobodyNames(RunFrom(rs, ops[..|ops| - 1], self), ops[|ops| - 1], self, mac);
      hide NobodyNames, After;
    }
  }

  function RunFrom(rs: seq<Route>, ops: seq<RouteOp>, self: U32): (r: seq<Route>)
    ensures |r| == |rs|
  {
    if ops == [] then rs else After(RunFrom(rs, ops[..|ops| - 1], self), ops[|ops| - 1], self)
  }

  lemma RunFromOne(rs: seq<Route>, ops: seq<RouteOp>, op: RouteOp, self: U32)
    ensures RunFrom(rs, ops + [op], self) == After(RunFrom(rs, ops, self), op, self)
  {
    hide After;
    assert (ops + [op])[..|ops|] == ops;
  }

  lemma {:induction false} RunFromAppend(rs: seq<Route>, a: seq<RouteOp>, b: seq<RouteOp>, self: U32)
    ensures RunFrom(rs, a + b, self) == RunFrom(RunFrom(rs, a, self), b, self)
    decreases |b|
  {
    hide After;
    if b == [] {
      assert a + b == a;
    } else {
      RunFromAppend(rs, a, b[..|b| - 1], self);
      assert (a + b)[..|a + b| - 1] == a + b[..|b| - 1];
    }
  }
}
