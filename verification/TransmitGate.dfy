/** The single-outstanding-transmission protocol between the firmware and the radio driver. Accepted frames are
    numbered from one; the driver owes one callback for each. */
module TransmitGate {
  import opened Wrappers

  const NO_MEM_RETRIES := 2

  /** A result that was taken for the result of the frame `awaited`, and the frame it belongs to. */
  datatype Credit = Credit(result: nat, awaited: nat, success: bool)

  /** `latest` frames have been accepted; `driver` holds those whose callback is still due, and `queue` the
      results that are waiting for the firmware. `cleared` says that the firmware has found the queue empty, and nothing
      awaited, since it last submitted a frame. */
  datatype Gate = Gate(awaiting: bool, cleared: bool, latest: nat, driver: seq<nat>, queue: seq<(nat, bool)>,
                       credits: seq<Credit>)

  const START := Gate(false, false, 0, [], [], [])

  datatype Step =
    | Clear                            // the queue has been drained before a submission
    | Accept                           // esp_now_send returns OK
    | Callback(i: nat, success: bool)  // the driver reports a frame
    | Lose(i: nat)                     // a callback never comes
    | Consume                          // the firmware records a result
    | Recover                          // the firmware gives up on an outstanding frame

  function Without<T>(s: seq<T>, i: nat): seq<T>
    requires i < |s|
  {
    s[..i] + s[i + 1..]
  }

  predicate Enabled(g: Gate, step: Step) {
    match step
    case Clear => !g.awaiting && g.queue == []
    case Accept => !g.awaiting && g.cleared
    case Callback(i, _) => i < |g.driver|
    case Lose(i) => i < |g.driver|
    case Consume => g.queue != []
    case Recover => g.awaiting
  }

  function After(g: Gate, step: Step): Gate
    requires Enabled(g, step)
  {
    match step
    case Clear => g.(cleared := true)
    case Accept => g.(awaiting := true, cleared := false, latest := g.latest + 1, driver := g.driver + [g.latest + 1])
    case Callback(i, success) => g.(driver := Without(g.driver, i), queue := g.queue + [(g.driver[i], success)])
    case Lose(i) => g.(driver := Without(g.driver, i))
    case Consume =>
      g.(awaiting := false, queue := g.queue[1..],
         credits := g.credits + [Credit(g.queue[0].0, g.latest, g.queue[0].1)])
    case Recover => g.(awaiting := false)
  }

  /** The state after some steps, if every step is enabled when it happens. */
  function RunFrom(from: Gate, steps: seq<Step>): Option<Gate> {
    if steps == [] then Some(from)
    else
      var g := RunFrom(from, steps[..|steps| - 1]);
      if g.Some? && Enabled(g.value, steps[|steps| - 1]) then Some(After(g.value, steps[|steps| - 1])) else None
  }

  function Run(steps: seq<Step>): Option<Gate> { RunFrom(START, steps) }

  lemma {:induction false} RunAppend(from: Gate, a: seq<Step>, b: seq<Step>)
    requires RunFrom(from, a).Some?
    ensures RunFrom(from, a + b) == RunFrom(RunFrom(from, a).value, b)
    decreases |b|
  {
    if b == [] {
      assert a + b == a;
    } else {
      RunAppend(from, a, b[..|b| - 1]);
      assert (a + b)[..|a + b| - 1] == a + b[..|b| - 1];
    }
  }

  lemma RunOne(from: Gate, a: seq<Step>, step: Step)
    requires RunFrom(from, a).Some? && Enabled(RunFrom(from, a).value, step)
    ensures RunFrom(from, a + [step]) == Some(After(RunFrom(from, a).value, step))
  {
    assert (a + [step])[..|a|] == a;
  }

  function Count(credits: seq<Credit>, success: bool): nat {
    if credits == [] then 0
    else Count(credits[..|credits| - 1], success) + if credits[|credits| - 1].success == success then 1 else 0
  }

  lemma {:induction false} CountSplit(credits: seq<Credit>)
    ensures Count(credits, true) + Count(credits, false) == |credits|
  {
    if credits != [] {
      CountSplit(credits[..|credits| - 1]);
    }
  }

  lemma CountExtend(credits: seq<Credit>, c: Credit, success: bool)
    ensures Count(credits + [c], success) == Count(credits, success) + if c.success == success then 1 else 0
  {
    assert (credits + [c])[..|credits|] == credits;
  }

  // ---------- Without stall recovery ----------

  /** At most one frame is out, it is the latest, and every earlier one has its own result, in order. */
  ghost predicate SingleOutstanding(g: Gate) {
    && |g.driver| + |g.queue| == (if g.awaiting then 1 else 0)
    && (forall i :: 0 <= i < |g.driver| ==> g.driver[i] == g.latest)
    && (forall i :: 0 <= i < |g.queue| ==> g.queue[i].0 == g.latest)
    && g.latest == |g.credits| + (if g.awaiting then 1 else 0)
    && (forall i :: 0 <= i < |g.credits| ==> g.credits[i].result == g.credits[i].awaited == i + 1)
  }

  lemma StepKeepsSingle(g: Gate, step: Step)
    requires SingleOutstanding(g) && Enabled(g, step) && !step.Recover? && !step.Lose?
    ensures SingleOutstanding(After(g, step))
  {
  }

  /** In every run without a lost callback and without recovery, driver and queue together hold one result if one is
      awaited and none otherwise; each frame is credited its own result exactly once, in order; and accepted frames
      are successes plus failures plus the one awaited. */
  lemma {:induction false} OneOutstandingInEveryRun(steps: seq<Step>)
    requires Run(steps).Some? && forall i :: 0 <= i < |steps| ==> !steps[i].Recover? && !steps[i].Lose?
    ensures var g := Run(steps).value;
      && SingleOutstanding(g)
      && g.latest == Count(g.credits, true) + Count(g.credits, false) + (if g.awaiting then 1 else 0)
    decreases |steps|
  {
    if steps != [] {
      var front, last := steps[..|steps| - 1], steps[|steps| - 1];
      hide SingleOutstanding, After, Enabled;
      OneOutstandingInEveryRun(front);
      StepKeepsSingle(Run(front).value, last);
    }
    var g := Run(steps).value;
    CountSplit(g.credits);
  }

  // ---------- With stall recovery ----------

  ghost predicate CreditsRight(g: Gate) {
    forall i :: 0 <= i < |g.credits| ==> g.credits[i].result == g.credits[i].awaited
  }

  /** Whatever is out is the latest frame; the driver holds it only while it is awaited, and its result is gone before
      the next submission. */
  ghost predicate NothingStale(g: Gate) {
    && |g.driver| + |g.queue| <= 1
    && (forall i :: 0 <= i < |g.driver| ==> g.driver[i] == g.latest)
    && (forall i :: 0 <= i < |g.queue| ==> g.queue[i].0 == g.latest)
    && (!g.awaiting ==> g.driver == []) && (g.cleared ==> !g.awaiting && g.queue == [])
  }

  /** Recovery happens only when the driver holds nothing: the callback is lost or has come. */
  ghost predicate RecoversOnlyLost(from: Gate, steps: seq<Step>)
    requires RunFrom(from, steps).Some?
  {
    steps == [] ||
    var front, last := steps[..|steps| - 1], steps[|steps| - 1];
    RecoversOnlyLost(from, front) && (last.Recover? ==> RunFrom(from, front).value.driver == [])
  }

  lemma StepKeepsNothingStale(g: Gate, step: Step)
    requires NothingStale(g) && CreditsRight(g) && Enabled(g, step) && (step.Recover? ==> g.driver == [])
    ensures NothingStale(After(g, step)) && CreditsRight(After(g, step))
  {
  }

  /** In such runs no result is ever credited to another frame. */
  lemma {:induction false} LostOnlyRecoveryIsSafe(from: Gate, steps: seq<Step>)
    requires NothingStale(from) && CreditsRight(from)
    requires RunFrom(from, steps).Some? && RecoversOnlyLost(from, steps)
    ensures NothingStale(RunFrom(from, steps).value) && CreditsRight(RunFrom(from, steps).value)
    decreases |steps|
  {
    if steps != [] {
      var front, last := steps[..|steps| - 1], steps[|steps| - 1];
      hide NothingStale, CreditsRight, After, Enabled;
      LostOnlyRecoveryIsSafe(from, front);
      StepKeepsNothingStale(RunFrom(from, front).value, last);
    }
  }

  /** Every run from the start whose recoveries find the driver empty credits rightly. */
  lemma RunsAreSafe(steps: seq<Step>)
    requires Run(steps).Some? && RecoversOnlyLost(START, steps)
    ensures CreditsRight(Run(steps).value)
  {
    assert NothingStale(START) && CreditsRight(START);
    LostOnlyRecoveryIsSafe(START, steps);
  }

  /** After recovering now, no continuation that recovers only from lost callbacks credits a result wrongly. */
  ghost predicate RecoveryIsSafe(g: Gate)
    requires g.awaiting
  {
    forall steps :: RunFrom(After(g, Recover), steps).Some? && RecoversOnlyLost(After(g, Recover), steps) ==>
      CreditsRight(RunFrom(After(g, Recover), steps).value)
  }

  /** Recovering is safe exactly when the driver does not hold the frame any more. */
  lemma RecoveryIsSafeExactly(g: Gate)
    requires NothingStale(g) && CreditsRight(g) && g.awaiting
    ensures RecoveryIsSafe(g) <==> g.driver == []
  {
    var g1 := After(g, Recover);
    if g.driver == [] {
      StepKeepsNothingStale(g, Recover);
      hide NothingStale, CreditsRight, After;
      forall steps | RunFrom(g1, steps).Some? && RecoversOnlyLost(g1, steps)
        ensures CreditsRight(RunFrom(g1, steps).value)
      {
        LostOnlyRecoveryIsSafe(g1, steps);
      }
    } else {
      EarlyRecoveryMisattributes(g, true);
      var steps := [Clear, Accept, Callback(0, true), Consume];
      FourSteps(g1, Clear, Accept, Callback(0, true), Consume);
      hide After;
      assert !CreditsRight(RunFrom(g1, steps).value);
    }
  }

  lemma FourSteps(g: Gate, a: Step, b: Step, c: Step, d: Step)
    requires Enabled(g, a) && Enabled(After(g, a), b) && Enabled(After(After(g, a), b), c)
    requires Enabled(After(After(After(g, a), b), c), d) && !a.Recover? && !b.Recover? && !c.Recover? && !d.Recover?
    ensures RunFrom(g, [a, b, c, d]) == Some(After(After(After(After(g, a), b), c), d))
    ensures RecoversOnlyLost(g, [a, b, c, d])
  {
    hide After, Enabled;
    assert [a, b, c, d][..3] == [a, b, c] && [a, b, c][..2] == [a, b] && [a, b][..1] == [a] && [a][..0] == [];
    assert RunFrom(g, [a]) == Some(After(g, a));
    assert RunFrom(g, [a, b]) == Some(After(After(g, a), b));
    assert RunFrom(g, [a, b, c]) == Some(After(After(After(g, a), b), c));
    assert RecoversOnlyLost(g, [a]);
    assert RecoversOnlyLost(g, [a, b]);
    assert RecoversOnlyLost(g, [a, b, c]);
  }

  /** Recovery while the driver still holds the frame can always go wrong, even though the firmware drains the queue
      before it submits: the late callback is credited to the next frame. */
  lemma EarlyRecoveryMisattributes(g: Gate, success: bool)
    requires NothingStale(g) && g.awaiting && g.driver != []
    ensures var g1 := After(g, Recover);
      Enabled(g1, Clear) &&
      var g2 := After(g1, Clear);
      Enabled(g2, Accept) &&
      var g3 := After(g2, Accept);
      Enabled(g3, Callback(0, success)) &&
      var g4 := After(g3, Callback(0, success));
      Enabled(g4, Consume) && !CreditsRight(After(g4, Consume))
  {
    var g3 := After(After(After(g, Recover), Clear), Accept);
    assert g3.driver == g.driver + [g.latest + 1] && g3.driver[0] == g.latest;
    var g5 := After(After(g3, Callback(0, success)), Consume);
    assert g5.credits[|g5.credits| - 1] == Credit(g.latest, g.latest + 1, success);
  }

  // ---------- The firmware side ----------

  datatype DriverReply = Accepted | NoMemory | OtherError

  ghost predicate Quiet(steps: seq<Step>) { forall i :: 0 <= i < |steps| ==> !steps[i].Recover? && !steps[i].Lose? }

  /** The first `n` results in the queue, credited to the latest frame. */
  function Late(g: Gate, n: nat): (r: seq<Credit>)
    requires n <= |g.queue|
  {
    seq(n, i requires 0 <= i < n => Credit(g.queue[i].0, g.latest, g.queue[i].1))
  }

  lemma LateNext(g: Gate, n: nat)
    requires n < |g.queue|
    ensures Late(g, n + 1) == Late(g, n) + [Credit(g.queue[n].0, g.latest, g.queue[n].1)]
  {
  }

  /** The gate after the first `n` results in the queue have been recorded. */
  function Emptied(g: Gate, n: nat): Gate
    requires n <= |g.queue|
  {
    g.(awaiting := g.awaiting && n == 0, queue := g.queue[n..], credits := g.credits + Late(g, n))
  }

  lemma EmptiedNone(g: Gate)
    ensures Emptied(g, 0) == g
  {
  }

  lemma EmptiedNext(from: Gate, g: Gate, steps: seq<Step>)
    requires |steps| < |from.queue| && g == Emptied(from, |steps|) && RunFrom(from, steps) == Some(g)
    ensures After(g, Consume) == Emptied(from, |steps| + 1)
    ensures RunFrom(from, steps + [Consume]) == Some(After(g, Consume))
  {
    RunOne(from, steps, Consume);
    var n := |steps|;
    LateNext(from, n);
    hide RunFrom, Late;
    assert g.queue[0] == from.queue[n] && g.queue[1..] == from.queue[n + 1..];
    assert g.credits + [Credit(from.queue[n].0, from.latest, from.queue[n].1)] == from.credits + Late(from, n + 1);
  }

  /** The gate when every late result has been credited to the latest frame, and nothing is awaited. */
  function Drained(g: Gate): Gate { Emptied(g, |g.queue|).(cleared := true, awaiting := false) }

  /** The gate after a frame was accepted and a callback for the `which`-th frame held came, or none did. */
  function AfterAcceptance(g: Gate, callback: Option<bool>, which: nat): Gate
    requires which <= |g.driver| && g.queue == []
  {
    var mine := g.latest + 1;
    var held := g.driver + [mine];
    match callback
    case None => g.(awaiting := true, cleared := false, latest := mine, driver := held)
    case Some(success) =>
      g.(awaiting := false, cleared := false, latest := mine, driver := Without(held, which),
         credits := g.credits + [Credit(held[which], mine, success)])
  }

  /** Refused submissions, repeated attempts, and frames given up for want of memory. */
  datatype Tallies = Tallies(refused: nat, retries: nat, drops: nat)

  /** The driver decides at its first answer that is not want of memory, within the attempts there are. */
  ghost predicate Submits(g: Gate, g': Gate, t: Tallies, t': Tallies, replies: seq<DriverReply>, callback: Option<bool>,
                          which: nat, ok: bool)
    requires |replies| == NO_MEM_RETRIES + 1 && which <= |g.driver| && g.queue == []
  {
    var k := LeadingNoMemory(replies);
    var exhausted := k > NO_MEM_RETRIES;
    var accepted := !exhausted && k < |replies| && replies[k] == Accepted;
    && g' == (if accepted then AfterAcceptance(g, callback, which) else g)
    && (ok <==> accepted && callback == Some(true))
    && t' == Tallies(t.refused + (if accepted then 0 else 1), t.retries + (if exhausted then NO_MEM_RETRIES else k),
                     t.drops + (if exhausted then 1 else 0))
  }

  class RadioSender {
    var ready: bool
    var txAwaiting: bool
    var results: seq<bool>
    var txFrames: nat
    var txSuccess: nat
    var txFailed: nat
    var txNoMemRetries: nat
    var txNoMemDrops: nat
    var txCallbackTimeouts: nat
    ghost var gate: Gate
    ghost var refused: nat

    /** The flags, the queue and the counters agree with the protocol state. */
    ghost predicate Valid()
      reads this
    {
      && txAwaiting == gate.awaiting
      && |results| == |gate.queue| && (forall i :: 0 <= i < |results| ==> results[i] == gate.queue[i].1)
      && txFrames == gate.latest
      && txSuccess == Count(gate.credits, true)
      && txFailed == Count(gate.credits, false) + refused
    }

    ghost function TalliesNow(): Tallies
      reads this
    {
      Tallies(refused, txNoMemRetries, txNoMemDrops)
    }

    constructor ()
      ensures Valid() && gate == START && !ready
    {
      ready, txAwaiting, results := false, false, [];
      txFrames, txSuccess, txFailed, txNoMemRetries, txNoMemDrops, txCallbackTimeouts := 0, 0, 0, 0, 0, 0;
      gate, refused := START, 0;
    }

    /** The driver's callback queues a result. */
    method OnSend(ghost i: nat, success: bool)
      requires Valid() && i < |gate.driver|
      modifies `results, `gate
      ensures Valid() && gate == After(old(gate), Callback(i, success)) && ready == old(ready)
      ensures txAwaiting == old(txAwaiting) && results == old(results) + [success]
    {
      results := results + [success];
      gate := After(gate, Callback(i, success));
    }

    method RecordTxResult(success: bool)
      requires Valid() && results != [] && success == results[0]
      modifies `txAwaiting, `txSuccess, `txFailed, `results, `gate
      ensures Valid() && gate == After(old(gate), Consume) && results == old(results)[1..] && ready == old(ready)
    {
      ghost var credit := Credit(gate.queue[0].0, gate.latest, success);
      CountExtend(gate.credits, credit, true);
      CountExtend(gate.credits, credit, false);
      txAwaiting := false;
      if success {
        txSuccess := txSuccess + 1;
      } else {
        txFailed := txFailed + 1;
      }
      results := results[1..];
      gate := After(gate, Consume);
    }

    method ProcessTxResultQueue() returns (ghost steps: seq<Step>)
      requires Valid()
      modifies `txAwaiting, `txSuccess, `txFailed, `results, `gate
      ensures Valid() && results == [] && ready == old(ready) && gate == Emptied(old(gate), |old(gate).queue|)
      ensures RunFrom(old(gate), steps) == Some(gate)
      ensures forall i :: 0 <= i < |steps| ==> steps[i] == Consume
    {
      steps := [];
      hide Count, Emptied, After, Enabled;
      EmptiedNone(gate);
      while results != []
        invariant Valid() && ready == old(ready) && RunFrom(old(gate), steps) == Some(gate)
        invariant forall i :: 0 <= i < |steps| ==> steps[i] == Consume
        invariant |steps| + |results| == |old(gate).queue| && gate == Emptied(old(gate), |steps|)
        decreases |results|
      {
        EmptiedNext(old(gate), gate, steps);
        steps := steps + [Consume];
        RecordTxResult(results[0]);
      }
    }

    /** From acceptance on: wait for a callback, and record it if one comes. It is that of the `which`-th frame the
        driver holds, the accepted one last. */
    method AwaitResult(callback: Option<bool>, ghost which: nat) returns (ok: bool, ghost steps: seq<Step>)
      requires txAwaiting && !gate.awaiting && gate.cleared && results == [] && gate.queue == []
      requires txFrames == gate.latest && txSuccess == Count(gate.credits, true)
      requires txFailed == Count(gate.credits, false) + refused && which <= |gate.driver|
      modifies this
      ensures Valid() && ready == old(ready)
      ensures RunFrom(old(gate), steps) == Some(gate) && Quiet(steps)
      ensures gate == AfterAcceptance(old(gate), callback, which) && (ok <==> callback == Some(true))
      ensures TalliesNow() == old(TalliesNow())
      ensures txCallbackTimeouts == old(txCallbackTimeouts) + if callback.None? then 1 else 0
    {
      hide Count;
      RunOne(gate, [], Accept);
      steps := [Accept];
      assert [] + [Accept] == steps;
      gate := After(gate, Accept);
      txFrames := txFrames + 1;
      if callback.None? {
        txCallbackTimeouts := txCallbackTimeouts + 1;
        return false, steps;
      }
      RunOne(old(gate), steps, Callback(which, callback.value));
      steps := steps + [Callback(which, callback.value)];
      OnSend(which, callback.value);
      RunOne(old(gate), steps, Consume);
      steps := steps + [Consume];
      RecordTxResult(callback.value);
      return callback.value, steps;
    }

    /** The attempts: only a full driver queue is tried again, and at most twice. */
    method Submit(replies: seq<DriverReply>, callback: Option<bool>, ghost which: nat)
      returns (ok: bool, ghost steps: seq<Step>)
      requires Valid() && !txAwaiting && gate.cleared && results == [] && |replies| == NO_MEM_RETRIES + 1
      requires which <= |gate.driver|
      modifies this
      ensures Valid() && ready == old(ready)
      ensures RunFrom(old(gate), steps) == Some(gate) && Quiet(steps)
      ensures Submits(old(gate), gate, old(TalliesNow()), TalliesNow(), replies, callback, which, ok)
    {
      LeadingIs(replies);
      hide LeadingNoMemory;
      for attempt := 0 to NO_MEM_RETRIES + 1
        invariant Valid() && ready == old(ready) && !txAwaiting && gate == old(gate) && results == []
        invariant refused == old(refused) && txNoMemDrops == old(txNoMemDrops)
        invariant attempt <= LeadingNoMemory(replies) && txNoMemRetries == old(txNoMemRetries) + attempt
        invariant attempt <= NO_MEM_RETRIES
      {
        txAwaiting := true;
        var result := replies[attempt];
        if result == Accepted {
          ok, steps := AwaitResult(callback, which);
          return;
        }
        txAwaiting := false;
        if result != NoMemory || attempt + 1 >= NO_MEM_RETRIES + 1 {
          if result == NoMemory {
            txNoMemDrops := txNoMemDrops + 1;
          }
          txFailed, refused := txFailed + 1, refused + 1;
          return false, [];
        }
        txNoMemRetries := txNoMemRetries + 1;
      }
      return false, [];
    }

    /** Submits one frame. `replies` are the driver's answers to the attempts, and `callback` is the callback that
        arrives within the blocking wait, if one does. The whole call is a run of the protocol that accepts at most one
        frame; it reports success only on a successful result recorded while that frame was awaited, and that result is
        the frame's own unless an older frame has been given up on. */
    method SendRawTo(len: nat, replies: seq<DriverReply>, callback: Option<bool>, ghost which: nat)
      returns (ok: bool, ghost steps: seq<Step>)
      requires Valid() && |replies| == NO_MEM_RETRIES + 1 && which <= |gate.driver|
      modifies this
      ensures Valid() && ready == old(ready)
      ensures RunFrom(old(gate), steps) == Some(gate) && Quiet(steps)
      ensures if !old(ready) || len == 0 || len > 250 then
                !ok && gate == old(gate) && TalliesNow() == old(TalliesNow())
              else if old(gate).awaiting && old(gate).queue == [] then
                !ok && gate == old(gate) && TalliesNow() == old(TalliesNow())
              else
                Submits(Drained(old(gate)), gate, old(TalliesNow()), TalliesNow(), replies, callback, which, ok)
      ensures ok ==>
                && gate.latest == old(gate).latest + 1 && gate.credits != []
                && gate.credits[|gate.credits| - 1]
                   == Credit((old(gate).driver + [gate.latest])[which], gate.latest, true)
                && (old(gate).driver == [] ==> gate.credits[|gate.credits| - 1].result == gate.latest)
    {
      steps := [];
      if !ready || len == 0 || len > 250 {
        return false, steps;
      }
      hide Count, After, Enabled, LeadingNoMemory;
      steps := Drain();
      if txAwaiting {
        return false, steps;
      }
      ghost var more;
      ok, more := Submit(replies, callback, which);
      RunAppend(old(gate), steps, more);
      steps := steps + more;
    }

    /** Drains a late callback before another frame may be submitted. */
    method Drain() returns (ghost steps: seq<Step>)
      requires Valid()
      modifies `txAwaiting, `txSuccess, `txFailed, `results, `gate
      ensures Valid() && ready == old(ready) && results == [] && (!txAwaiting ==> gate.cleared)
      ensures RunFrom(old(gate), steps) == Some(gate) && Quiet(steps)
      ensures TalliesNow() == old(TalliesNow())
      ensures txAwaiting <==> old(gate).awaiting && old(gate).queue == []
      ensures gate == if txAwaiting then old(gate) else Drained(old(gate))
    {
      steps := ProcessTxResultQueue();
      if !txAwaiting {
        RunOne(old(gate), steps, Clear);
        steps := steps + [Clear];
        gate := After(gate, Clear);
      }
    }

    /** Gives up on an outstanding callback so that sending can go on. */
    method RecoverStalledTx(registered: bool) returns (ok: bool)
      requires Valid() && txAwaiting
      modifies this
      ensures Valid() && ok == registered && ready == old(ready)
      ensures gate == if registered then After(old(gate), Recover) else old(gate)
    {
      if registered {
        txAwaiting := false;
        gate := After(gate, Recover);
      }
      return registered;
    }
  }

  function LeadingNoMemory(replies: seq<DriverReply>): nat {
    if replies == [] || replies[0] != NoMemory then 0 else 1 + LeadingNoMemory(replies[1..])
  }

  /** The number of refusals for want of memory before the first other answer. */
  lemma {:induction false} LeadingIs(replies: seq<DriverReply>)
    ensures LeadingNoMemory(replies) <= |replies|
    ensures forall i :: 0 <= i < LeadingNoMemory(replies) ==> replies[i] == NoMemory
    ensures LeadingNoMemory(replies) < |replies| ==> replies[LeadingNoMemory(replies)] != NoMemory
  {
    if replies != [] {
      LeadingIs(replies[1..]);
    }
  }
}
