/** A probe run: one outstanding ping at a time, each finalized as received, lost or cancelled. Tags stand for
    their eight hex digits; a ping id that is no tag is a number of 2^32 or more. */
module ProbeRuns {
  import opened Wrappers
  import opened Clock

  datatype Status = Running | Complete | Stopped

  datatype Sample = Sample(number: nat, ok: bool, rtt: Option<real>)

  datatype Event = Event(pong: bool, src: Option<U32>, tag: nat, hashOk: bool, statusOk: bool)

  datatype Plan = Plan(destination: U32, count: nat, interval: real, timeout: real) {
    predicate Valid() {
      destination != 0 && 1 <= count <= 10000 && 0.1 <= interval <= 60.0 && 0.5 <= timeout <= 60.0
    }
  }

  /** The plan for a run, if all its parameters are in range; the times are given in milliseconds. */
  function PlanOf(destination: U32, count: int, intervalMs: int, timeoutMs: int): (r: Option<Plan>)
    ensures r.Some? <==>
              destination != 0 && 1 <= count <= 10000 && 100 <= intervalMs <= 60000 && 500 <= timeoutMs <= 60000
    ensures r.Some? ==> r.value.Valid() && 1000.0 * r.value.interval == intervalMs as real
    ensures r.Some? ==> 1000.0 * r.value.timeout == timeoutMs as real && r.value.count == count
    ensures r.Some? ==> r.value.destination == destination
  {
    if count < 0 then None
    else
      var p := Plan(destination, count, intervalMs as real / 1000.0, timeoutMs as real / 1000.0);
      if p.Valid() then Some(p) else None
  }

  datatype Run = Run(status: Status, nextAt: real, sent: nat, pending: map<nat, real>, finished: set<nat>,
                     samples: seq<Sample>, late: nat, cancelled: nat)

  // ---------- What each operation does ----------

  function Fresh(now: real): Run { Run(Running, now, 0, map[], {}, [], 0, 0) }

  predicate Due(p: Plan, r: Run, now: real) {
    r.status == Running && r.sent < p.count && r.pending == map[] && now >= r.nextAt
  }

  function Finish(p: Plan, r: Run): Run {
    if r.status == Running && r.sent >= p.count && r.pending == map[] then r.(status := Complete) else r
  }

  function AfterSubmitted(p: Plan, r: Run, tag: nat, now: real): Run {
    r.(pending := r.pending[tag := now], sent := r.sent + 1, nextAt := now + p.interval)
  }

  /** A pong from the destination; nothing else can ever count. */
  predicate FromDestination(p: Plan, e: Event) { e.pong && e.src == Some(p.destination) }

  function SampleOf(p: Plan, r: Run, e: Event, now: real): Sample
    requires e.tag in r.pending
  {
    var elapsed := now - r.pending[e.tag];
    var ok := elapsed <= p.timeout && e.hashOk && e.statusOk;
    Sample(|r.samples| + 1, ok, if ok then Some(elapsed) else None)
  }

  function AfterReceive(p: Plan, r: Run, e: Event, now: real): Run {
    if !FromDestination(p, e) then r
    else if e.tag !in r.pending then
      if e.tag in r.finished then r.(late := r.late + 1) else r
    else
      Finish(p, r.(pending := r.pending - {e.tag}, finished := r.finished + {e.tag},
                   samples := r.samples + [SampleOf(p, r, e, now)]))
  }

  function Expired(p: Plan, pending: map<nat, real>, now: real): set<nat> {
    set tag | tag in pending && now - pending[tag] >= p.timeout
  }

  function LostSamples(n: nat, k: nat): (s: seq<Sample>)
    ensures |s| == k
  {
    seq(k, i requires 0 <= i => Sample(n + i + 1, false, None))
  }

  /** The pings in `lost` become lost samples. */
  function Losing(r: Run, lost: set<nat>): Run {
    r.(pending := r.pending - lost, finished := r.finished + lost,
       samples := r.samples + LostSamples(|r.samples|, |lost|))
  }

  function AfterTick(p: Plan, r: Run, now: real): Run { Finish(p, Losing(r, Expired(p, r.pending, now))) }

  function AfterCancel(r: Run): Run {
    r.(cancelled := r.cancelled + |r.pending|, finished := r.finished + r.pending.Keys, pending := map[],
       status := Stopped)
  }

  /** Exactly the pings as old as the time-out go, each with a lost sample. */
  ghost predicate Expires(p: Plan, r: Run, r': Run, now: real) {
    && (forall tag :: tag in r'.pending <==> tag in r.pending && now - r.pending[tag] < p.timeout)
    && (forall tag :: tag in r'.pending ==> r'.pending[tag] == r.pending[tag])
    && r'.finished == r.finished + (r.pending.Keys - r'.pending.Keys)
    && |r'.samples| == |r.samples| + |r.pending.Keys - r'.pending.Keys| && r.samples <= r'.samples
    && (forall i :: |r.samples| <= i < |r'.samples| ==> r'.samples[i] == Sample(i + 1, false, None))
    && r' == r.(pending := r'.pending, finished := r'.finished, samples := r'.samples)
  }

  lemma LosingExpires(p: Plan, r: Run, now: real)
    ensures Expires(p, r, Losing(r, Expired(p, r.pending, now)), now)
  {
    assert r.pending.Keys - Losing(r, Expired(p, r.pending, now)).pending.Keys == Expired(p, r.pending, now);
  }

  /** A tick lets pings expire, and completes a running run that has sent all its pings and waits for none. */
  ghost predicate TimesOut(p: Plan, r: Run, r': Run, now: real) {
    && Expires(p, r, r'.(status := r.status), now)
    && r'.status == if r.status == Running && r.sent >= p.count && r'.pending == map[] then Complete else r.status
  }

  lemma TickTimesOut(p: Plan, r: Run, now: real)
    ensures TimesOut(p, r, AfterTick(p, r, now), now)
  {
    var u := Losing(r, Expired(p, r.pending, now));
    LosingExpires(p, r, now);
    assert u.status == r.status && u.sent == r.sent;
    hide Losing, Expires, Expired;
    assert AfterTick(p, r, now).(status := r.status) == u;
  }

  function OkCount(samples: seq<Sample>): (n: nat)
    ensures n <= |samples|
  {
    if samples == [] then 0
    else OkCount(samples[..|samples| - 1]) + if samples[|samples| - 1].ok then 1 else 0
  }

  function Received(r: Run): nat { OkCount(r.samples) }

  function Lost(r: Run): nat { |r.samples| - OkCount(r.samples) }

  // ---------- The object ----------

  class ProbeRun {
    const plan: Plan
    var status: Status
    var nextAt: real
    var sent: nat
    var pending: map<nat, real>
    var finished: set<nat>
    var samples: seq<Sample>
    var late: nat
    var cancelled: nat

    ghost function View(): Run
      reads this
    {
      Run(status, nextAt, sent, pending, finished, samples, late, cancelled)
    }

    constructor (plan: Plan, now: real)
      requires plan.Valid()
      ensures this.plan == plan && View() == Fresh(now)
    {
      this.plan := plan;
      status, nextAt, sent, pending, finished := Running, now, 0, map[], {};
      samples, late, cancelled := [], 0, 0;
    }

    method IsDue(now: real) returns (r: bool)
      ensures r == Due(plan, View(), now)
      ensures r <==> status == Running && sent < plan.count && pending == map[] && now >= nextAt
    {
      r := status == Running && sent < plan.count && pending == map[] && now >= nextAt;
    }

    method Submitted(tag: nat, now: real)
      modifies this
      ensures View() == AfterSubmitted(plan, old(View()), tag, now)
      ensures pending == old(pending)[tag := now] && sent == old(sent) + 1 && nextAt == now + plan.interval
      ensures status == old(status) && finished == old(finished) && samples == old(samples) && late == old(late)
      ensures cancelled == old(cancelled)
    {
      pending := pending[tag := now];
      sent := sent + 1;
      nextAt := now + plan.interval;
    }

    method Receive(e: Event, now: real) returns (r: bool)
      modifies this
      ensures View() == AfterReceive(plan, old(View()), e, now)
      ensures r <==> FromDestination(plan, e) && e.tag in old(pending)
      ensures r <==> e.pong && e.src == Some(plan.destination) && e.tag in old(pending)
      ensures !r ==> View() == old(View()).(late := late)
      ensures late == if !r && e.pong && e.src == Some(plan.destination) && e.tag in old(finished) then old(late) + 1
                      else old(late)
      ensures r ==>
                var rtt := now - old(pending)[e.tag];
                var ok := rtt <= plan.timeout && e.hashOk && e.statusOk;
                && pending == old(pending) - {e.tag} && finished == old(finished) + {e.tag}
                && samples == old(samples) + [Sample(|old(samples)| + 1, ok, if ok then Some(rtt) else None)]
                && sent == old(sent) && nextAt == old(nextAt) && cancelled == old(cancelled)
                && status == if old(status) == Running && sent >= plan.count && pending == map[] then Complete
                             else old(status)
    {
      if !e.pong || e.src != Some(plan.destination) {
        return false;
      }
      if e.tag !in pending {
        if e.tag in finished {
          late := late + 1;
        }
        return false;
      }
      var start := pending[e.tag];
      pending := pending - {e.tag};
      var ok := now - start <= plan.timeout && e.hashOk && e.statusOk;
      finished := finished + {e.tag};
      samples := samples + [Sample(|samples| + 1, ok, if ok then Some(now - start) else None)];
      FinishIfDone();
      return true;
    }

    method Tick(now: real)
      modifies this
      ensures View() == AfterTick(plan, old(View()), now)
      ensures TimesOut(plan, old(View()), View(), now)
    {
      TickTimesOut(plan, View(), now);
      hide Losing, Expired, TimesOut;
      LoseExpired(now);
      FinishIfDone();
    }

    method LoseExpired(now: real)
      modifies this
      ensures View() == Losing(old(View()), Expired(plan, old(pending), now))
    {
      ghost var r := View();
      var items := pending;
      var todo := items.Keys;
      LosingNone(r);
      ExpiredBut(plan, items, now);
      hide Losing, Expired;
      while todo != {}
        invariant items == r.pending && todo <= items.Keys
        invariant View() == Losing(r, Expired(plan, items, now) - todo)
        decreases |todo|
      {
        var tag :| tag in todo;
        LosingOneMore(plan, r, todo, tag, now);
        if now - items[tag] >= plan.timeout {
          Lose(tag);
        }
        todo := todo - {tag};
      }
    }

    method Lose(tag: nat)
      requires tag in pending
      modifies this
      ensures View() == OneLost(old(View()), tag)
    {
      pending := pending - {tag};
      finished := finished + {tag};
      samples := samples + [Sample(|samples| + 1, false, None)];
    }

    method FinishIfDone()
      modifies this`status
      ensures View() == Finish(plan, old(View()))
    {
      if status == Running && sent >= plan.count && pending == map[] {
        status := Complete;
      }
    }

    method Cancel()
      modifies this
      ensures View() == AfterCancel(old(View()))
      ensures pending == map[] && cancelled == old(cancelled) + |old(pending)| && status == Stopped
      ensures finished == old(finished) + old(pending).Keys && samples == old(samples) && sent == old(sent)
      ensures nextAt == old(nextAt) && late == old(late)
    {
      cancelled := cancelled + |pending|;
      finished := finished + pending.Keys;
      pending := map[];
      status := Stopped;
    }
  }

  lemma LosingNone(r: Run)
    ensures Losing(r, {}) == r
  {
    assert r.pending - {} == r.pending;
  }

  lemma ExpiredBut(p: Plan, pending: map<nat, real>, now: real)
    ensures Expired(p, pending, now) - pending.Keys == {}
    ensures Expired(p, pending, now) - {} == Expired(p, pending, now)
  {
  }

  function OneLost(r: Run, tag: nat): Run {
    r.(pending := r.pending - {tag}, finished := r.finished + {tag},
       samples := r.samples + [Sample(|r.samples| + 1, false, None)])
  }

  lemma LosingOneMore(p: Plan, r: Run, todo: set<nat>, tag: nat, now: real)
    requires tag in todo && todo <= r.pending.Keys
    ensures var lost := Expired(p, r.pending, now);
      var before, after := Losing(r, lost - todo), Losing(r, lost - (todo - {tag}));
      if now - r.pending[tag] >= p.timeout then tag in before.pending && after == OneLost(before, tag)
      else after == before
  {
    var lost := Expired(p, r.pending, now);
    assert tag in lost <==> now - r.pending[tag] >= p.timeout;
    hide Expired;
    if tag in lost {
      assert lost - (todo - {tag}) == (lost - todo) + {tag};
      assert r.pending - ((lost - todo) + {tag}) == r.pending - (lost - todo) - {tag};
    } else {
      assert lost - (todo - {tag}) == lost - todo;
    }
  }

  // ---------- The controller's side ----------

  function NthTag(first: U32, j: nat): U32 { Stamp(first + j) }

  ghost predicate Issued(t: nat, first: U32, n: nat) { exists j: nat :: 1 <= j <= n && t == NthTag(first, j) }

  ghost predicate AllIssued(tags: set<nat>, first: U32, n: nat) { forall t :: t in tags ==> Issued(t, first, n) }

  function Tags(r: Run): set<nat> { r.pending.Keys + r.finished }

  /** A new tag differs from fewer than 2^32 earlier ones. */
  lemma NextTagIsFresh(tags: set<nat>, first: U32, n: nat)
    requires AllIssued(tags, first, n) && n + 1 < WRAP
    ensures NthTag(first, n + 1) !in tags
  {
    var next := NthTag(first, n + 1);
    if next in tags {
      assert Issued(next, first, n);
      var j: nat :| 1 <= j <= n && next == NthTag(first, j);
      StampsDiffer(first + j, first + n + 1);
    }
  }

  lemma IssueOneMore(tags: set<nat>, first: U32, n: nat)
    requires AllIssued(tags, first, n)
    ensures AllIssued(tags + {NthTag(first, n + 1)}, first, n + 1)
  {
    hide NthTag;
    var more := tags + {NthTag(first, n + 1)};
    forall t | t in more
      ensures Issued(t, first, n + 1)
    {
      if t in tags {
        var j: nat :| 1 <= j <= n && t == NthTag(first, j);
        assert 1 <= j <= n + 1;
      } else {
        assert 1 <= n + 1 <= n + 1;
      }
    }
  }

  lemma TagsAre(r: Run, t: nat)
    ensures t in Tags(r) <==> t in r.pending || t in r.finished
  {
  }

  /** Time moves tags from pending to finished and brings no new ones. */
  lemma TickKeepsTags(p: Plan, r: Run, now: real)
    ensures Tags(AfterTick(p, r, now)) == Tags(r)
  {
  }

  lemma SubmitAddsTag(p: Plan, r: Run, tag: nat, now: real)
    ensures Tags(AfterSubmitted(p, r, tag, now)) == Tags(r) + {tag}
  {
  }

  /** The controller numbers its pings with a wrapping counter, which moves on even when the link refuses one. */
  class Prober {
    const run: ProbeRun
    var probeTag: U32
    ghost const firstTag: U32
    ghost var issued: nat

    ghost predicate Valid()
      reads this, run
    {
      probeTag == NthTag(firstTag, issued) && AllIssued(Tags(run.View()), firstTag, issued)
    }

    constructor (run: ProbeRun, probeTag: U32)
      requires run.pending == map[] && run.finished == {}
      ensures Valid() && this.run == run && issued == 0
    {
      this.run := run;
      this.probeTag := probeTag;
      firstTag, issued := probeTag, 0;
    }

    /** What one tick does for the run: a due ping is submitted under a tag the run has
        never seen, if the link takes it. */
    method Tick(now: real, connected: bool, accepted: bool)
      requires Valid() && issued + 1 < WRAP
      modifies this, run
      ensures Valid()
      ensures var r := AfterTick(run.plan, old(run.View()), now);
        if connected && accepted && Due(run.plan, r, now) then
          && probeTag !in r.pending && probeTag !in r.finished
          && run.View() == AfterSubmitted(run.plan, r, probeTag, now)
        else run.View() == r
    {
      hide AfterTick, AllIssued, AfterSubmitted, Tags, TimesOut;
      run.Tick(now);
      ghost var r := run.View();
      TickKeepsTags(run.plan, old(run.View()), now);
      var due := run.IsDue(now);
      if connected && due {
        NextTagIsFresh(Tags(r), firstTag, issued);
        TagsAre(r, NthTag(firstTag, issued + 1));
        IssueOneMore(Tags(r), firstTag, issued);
        IssuedStays(Tags(r), firstTag, issued);
        probeTag := (probeTag + 1) % WRAP;
        assert probeTag == NthTag(firstTag, issued + 1);
        issued := issued + 1;
        if accepted {
          run.Submitted(probeTag, now);
          SubmitAddsTag(run.plan, r, probeTag, now);
        }
      }
    }
  }

  lemma IssuedStays(tags: set<nat>, first: U32, n: nat)
    requires AllIssued(tags, first, n)
    ensures AllIssued(tags, first, n + 1)
  {
    IssueOneMore(tags, first, n);
  }

  lemma StampsDiffer(a: nat, b: nat)
    requires a < b < a + WRAP
    ensures Stamp(a) != Stamp(b)
  {
  }

  // ---------- Whole runs ----------

  datatype Action = Probe(tag: nat, at: real) | Hear(event: Event, at: real) | Time(at: real) | Cancel

  /** A ping is submitted only when due and with a tag the run has not seen. */
  ghost predicate Step(p: Plan, r: Run, a: Action, r': Run) {
    match a
    case Probe(tag, now) =>
      Due(p, r, now) && tag !in r.pending && tag !in r.finished && r' == AfterSubmitted(p, r, tag, now)
    case Hear(e, now) => r' == AfterReceive(p, r, e, now)
    case Time(now) => r' == AfterTick(p, r, now)
    case Cancel => r' == AfterCancel(r)
  }

  ghost predicate IsRun(p: Plan, states: seq<Run>, actions: seq<Action>) {
    && |states| == |actions| + 1
    && (exists now :: states[0] == Fresh(now))
    && forall i :: 0 <= i < |actions| ==> Step(p, states[i], actions[i], states[i + 1])
  }

  /** Every ping is pending, finalized or cancelled, and no tag is finalized twice. */
  ghost predicate Conserved(p: Plan, r: Run) {
    && r.sent == |r.samples| + |r.pending| + r.cancelled <= p.count
    && |r.finished| == |r.samples| + r.cancelled
    && r.pending.Keys !! r.finished
    && |r.pending| <= 1
    && (r.status != Running ==> r.pending == map[])
    && (r.status == Complete ==> r.sent == p.count)
    && (r.status == Running ==> r.cancelled == 0) && r.cancelled <= 1
  }

  /** What is taken out of pending keeps the sums. */
  lemma Moved(pending: map<nat, real>, finished: set<nat>, out: set<nat>)
    requires out <= pending.Keys && pending.Keys !! finished
    ensures |pending - out| == |pending| - |out| && |finished + out| == |finished| + |out|
    ensures (pending - out).Keys !! (finished + out)
  {
    assert (pending - out).Keys == pending.Keys - out;
    assert finished !! out;
    assert |pending.Keys| == |pending.Keys - out| + |out|;
  }

  lemma ProbeConserves(p: Plan, r: Run, tag: nat, now: real)
    requires Conserved(p, r) && Due(p, r, now) && tag !in r.pending && tag !in r.finished
    ensures Conserved(p, AfterSubmitted(p, r, tag, now)) && AfterSubmitted(p, r, tag, now).finished == r.finished
  {
    var pending := r.pending[tag := now];
    assert pending.Keys == {tag};
    assert |pending| == |pending.Keys| == 1;
  }

  /** Pings that move from pending to samples keep the sums. */
  lemma SamplesConserve(p: Plan, r: Run, out: set<nat>, more: seq<Sample>)
    requires Conserved(p, r) && out <= r.pending.Keys && |more| == |out|
    ensures Conserved(p, Finish(p, r.(pending := r.pending - out, finished := r.finished + out,
                                      samples := r.samples + more)))
  {
    Moved(r.pending, r.finished, out);
    assert r.pending == map[] ==> r.pending - out == map[];
  }

  lemma ReceiveConserves(p: Plan, r: Run, e: Event, now: real)
    requires Conserved(p, r)
    ensures Conserved(p, AfterReceive(p, r, e, now)) && r.finished <= AfterReceive(p, r, e, now).finished
  {
    hide SampleOf;
    if FromDestination(p, e) && e.tag in r.pending {
      SamplesConserve(p, r, {e.tag}, [SampleOf(p, r, e, now)]);
      hide Conserved;
    }
  }

  lemma TickConserves(p: Plan, r: Run, now: real)
    requires Conserved(p, r)
    ensures Conserved(p, AfterTick(p, r, now)) && r.finished <= AfterTick(p, r, now).finished
  {
    var out := Expired(p, r.pending, now);
    hide Conserved, LostSamples;
    SamplesConserve(p, r, out, LostSamples(|r.samples|, |out|));
  }

  lemma CancelConserves(p: Plan, r: Run)
    requires Conserved(p, r)
    ensures Conserved(p, AfterCancel(r)) && r.finished <= AfterCancel(r).finished
  {
    Moved(r.pending, r.finished, r.pending.Keys);
    assert r.pending - r.pending.Keys == map[];
  }

  lemma StepConserves(p: Plan, r: Run, a: Action, r': Run)
    requires Conserved(p, r) && Step(p, r, a, r')
    ensures Conserved(p, r') && r.finished <= r'.finished
  {
    hide Conserved, Due, AfterSubmitted, AfterReceive, AfterTick, AfterCancel;
    match a
    case Probe(tag, now) =>
      ProbeConserves(p, r, tag, now);
    case Hear(e, now) =>
      ReceiveConserves(p, r, e, now);
    case Time(now) =>
      TickConserves(p, r, now);
    case Cancel =>
      CancelConserves(p, r);
  }

  /** Conservation: in every run sent = finalized + pending + cancelled, at most one ping is pending, and as many
      different tags are finished as pings are finalized or cancelled. */
  lemma {:induction false} ConservedInEveryRun(p: Plan, states: seq<Run>, actions: seq<Action>)
    requires p.Valid() && IsRun(p, states, actions)
    ensures Conserved(p, states[|actions|])
    ensures forall i :: 0 <= i <= |actions| ==> states[i].finished <= states[|actions|].finished
  {
    hide Conserved, Step;
    if actions == [] {
      FreshConserved(p, states[0]);
    } else {
      var last := |actions| - 1;
      ConservedInEveryRun(p, states[..last + 1], actions[..last]);
      StepConserves(p, states[last], actions[last], states[last + 1]);
    }
  }

  lemma FreshConserved(p: Plan, r: Run)
    requires p.Valid() && exists now :: r == Fresh(now)
    ensures Conserved(p, r)
  {
  }

  ghost predicate Leaves(r: Run, r': Run, tag: nat) { tag in r.pending && tag !in r'.pending }

  lemma LeavesFinished(p: Plan, r: Run, a: Action, r': Run, tag: nat)
    requires Step(p, r, a, r') && Leaves(r, r', tag)
    ensures tag in r'.finished
  {
  }

  /** Each tag leaves the pending pings at most once in a run. */
  lemma FinalizedOnce(p: Plan, states: seq<Run>, actions: seq<Action>, i: nat, j: nat, tag: nat)
    requires p.Valid() && IsRun(p, states, actions) && i < j < |actions|
    requires Leaves(states[i], states[i + 1], tag)
    ensures !Leaves(states[j], states[j + 1], tag)
  {
    LeavesFinished(p, states[i], actions[i], states[i + 1], tag);
    hide Step;
    ConservedInEveryRun(p, states[..j + 1], actions[..j]);
    assert states[..j + 1][i + 1].finished <= states[j].finished;
  }

  /** A reused tag breaks the sums: submitting conserves exactly when the tag is not pending. */
  lemma SubmittedConserves(p: Plan, r: Run, tag: nat, now: real)
    requires r.sent == |r.samples| + |r.pending| + r.cancelled
    ensures var r' := AfterSubmitted(p, r, tag, now);
      r'.sent == |r'.samples| + |r'.pending| + r'.cancelled <==> tag !in r.pending
  {
    if tag in r.pending {
      assert r.pending[tag := now].Keys == r.pending.Keys;
    } else {
      assert r.pending[tag := now].Keys == r.pending.Keys + {tag};
    }
    assert |r.pending[tag := now]| == |r.pending[tag := now].Keys|;
  }

  lemma {:induction false} OkCountAppend(a: seq<Sample>, b: seq<Sample>)
    ensures OkCount(a + b) == OkCount(a) + OkCount(b)
  {
    if b == [] {
      assert a + b == a;
    } else {
      assert (a + b)[..|a + b| - 1] == a + b[..|b| - 1];
      OkCountAppend(a, b[..|b| - 1]);
    }
  }

  lemma {:induction false} LostCountZero(n: nat, k: nat)
    ensures OkCount(LostSamples(n, k)) == 0
  {
    if k != 0 {
      assert LostSamples(n, k)[..k - 1] == LostSamples(n, k - 1);
      LostCountZero(n, k - 1);
    }
  }

  /** The received count moves only when a pong of the destination answers the pending ping in time and intact. Late,
      repeated, foreign or local events change neither count, and a timed-out ping only the lost count. */
  lemma CountsMoveExactly(p: Plan, r: Run, a: Action, r': Run)
    requires Conserved(p, r) && Step(p, r, a, r')
    ensures var answers := a.Hear? && FromDestination(p, a.event) && a.event.tag in r.pending;
      var good := answers && a.at - r.pending[a.event.tag] <= p.timeout && a.event.hashOk && a.event.statusOk;
      && Received(r') == Received(r) + (if good then 1 else 0)
      && Lost(r') == Lost(r) + (if answers && !good then 1 else if a.Time? then |Expired(p, r.pending, a.at)| else 0)
      && (a.Hear? && !answers ==> r' == r.(late := r'.late))
  {
    match a
    case Probe(tag, now) =>
    case Hear(e, now) =>
      if FromDestination(p, e) && e.tag in r.pending {
        assert (r.samples + [SampleOf(p, r, e, now)])[..|r.samples|] == r.samples;
      }
    case Time(now) =>
      OkCountAppend(r.samples, LostSamples(|r.samples|, |Expired(p, r.pending, now)|));
      LostCountZero(|r.samples|, |Expired(p, r.pending, now)|);
    case Cancel =>
  }

  /** After a tick no ping has been pending for the time-out. */
  lemma TickLeavesYoung(p: Plan, r: Run, now: real)
    ensures forall tag :: tag in AfterTick(p, r, now).pending ==>
              tag in r.pending && now - AfterTick(p, r, now).pending[tag] < p.timeout
  {
  }
}
