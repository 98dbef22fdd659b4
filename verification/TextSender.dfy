/** Stop-and-wait sending of the packets of a text. */
module TextSenders {
  import opened Wrappers
  import opened Clock
  import opened TextPackets

  const MAX_RETRIES := 4

  datatype Status = Sending | Delivered | Failed | Cancelled

  datatype Ack = Ack(src: Option<U32>, e2eId: Option<E2eId>, ok: bool)

  datatype Transfer = Transfer(packets: seq<Packet>, index: nat, waiting: bool, retry: nat, nextAt: real,
                               deadline: real, status: Status)

  function Fresh(packets: seq<Packet>): Transfer { Transfer(packets, 0, false, 0, 0.0, 0.0, Sending) }

  // ---------- What each operation does ----------

  /** An acknowledgement of the current packet by its destination, while one is awaited. */
  predicate Confirms(t: Transfer, a: Ack)
    requires t.index < |t.packets|
  {
    var packet := t.packets[t.index];
    a.src == Some(packet.dst) && a.e2eId == Some(packet.e2eId) && a.ok && t.waiting
  }

  function AfterAck(t: Transfer, a: Ack, now: real): Transfer
    requires t.status == Sending ==> t.index < |t.packets|
  {
    if t.status != Sending || !Confirms(t, a) then t
    else
      t.(index := t.index + 1, waiting := false, retry := 0, nextAt := now + 0.08,
         status := if t.index + 1 == |t.packets| then Delivered else Sending)
  }

  function AfterTimeout(t: Transfer, now: real): Transfer {
    if t.status == Sending && t.waiting && now >= t.deadline then
      t.(waiting := false, retry := t.retry + 1, nextAt := now + 0.2 * (t.retry + 1) as real,
         status := if t.retry + 1 > MAX_RETRIES then Failed else Sending)
    else t
  }

  predicate Ready(t: Transfer, now: real) { t.status == Sending && !t.waiting && now >= t.nextAt }

  /** The time-out, and then a transmission if the link takes it. */
  function AfterTick(t: Transfer, now: real, accepted: bool): Transfer {
    var u := AfterTimeout(t, now);
    if Ready(u, now) && accepted then u.(waiting := true, deadline := now + 5.0 + u.retry as real) else u
  }

  function AfterStop(t: Transfer): Transfer { if t.status == Sending then t.(status := Cancelled) else t }

  class Sender {
    var packets: seq<Packet>
    var index: nat
    var waiting: bool
    var retry: nat
    var nextAt: real
    var deadline: real
    var status: Status

    ghost function View(): Transfer
      reads this
    {
      Transfer(packets, index, waiting, retry, nextAt, deadline, status)
    }

    ghost predicate Valid()
      reads this
    {
      status == Sending ==> index < |packets| && retry <= MAX_RETRIES
    }

    constructor (packets: seq<Packet>)
      requires packets != []
      ensures Valid() && View() == Fresh(packets)
    {
      this.packets := packets;
      index, waiting, retry, nextAt, deadline, status := 0, false, 0, 0.0, 0.0, Sending;
    }

    method Receive(a: Ack, now: real)
      requires Valid()
      modifies this
      ensures Valid() && View() == AfterAck(old(View()), a, now)
      ensures if && old(status) == Sending && old(waiting) && a.ok && a.src == Some(old(packets[index]).dst)
                 && a.e2eId == Some(old(packets[index]).e2eId)
              then
                && index == old(index) + 1 && !waiting && retry == 0 && nextAt == now + 0.08
                && packets == old(packets) && status == if index == |packets| then Delivered else Sending
              else View() == old(View())
    {
      if status == Sending {
        var packet := packets[index];
        if a.src == Some(packet.dst) && a.e2eId == Some(packet.e2eId) && a.ok && waiting {
          index := index + 1;
          waiting := false;
          retry := 0;
          nextAt := now + 0.08;
          if index == |packets| {
            status := Delivered;
          }
        }
      }
    }

    /** Returns what was handed to the link, which answers whether it takes it. */
    method Tick(now: real, linkTakes: bool) returns (offered: Option<Packet>)
      requires Valid()
      modifies this
      ensures Valid() && View() == AfterTick(old(View()), now, linkTakes)
      ensures offered == if Ready(AfterTimeout(old(View()), now), now) then Some(old(packets[index])) else None
      ensures packets == old(packets) && index == old(index)
      ensures if old(status) != Sending then offered == None && View() == old(View())
              else if old(waiting) && now >= old(deadline) then
                && offered == None && !waiting && retry == old(retry) + 1 && nextAt == now + 0.2 * retry as real
                && deadline == old(deadline) && status == if retry == 5 then Failed else Sending
              else if !old(waiting) && now >= old(nextAt) then
                && offered == Some(packets[index]) && waiting == linkTakes && retry == old(retry)
                && nextAt == old(nextAt) && status == Sending
                && deadline == if linkTakes then now + 5.0 + retry as real else old(deadline)
              else offered == None && View() == old(View())
    {
      offered := None;
      if status == Sending {
        if waiting && now >= deadline {
          waiting := false;
          retry := retry + 1;
          nextAt := now + 0.2 * retry as real;
          if retry > MAX_RETRIES {
            status := Failed;
          }
        }
        if status == Sending && !waiting && now >= nextAt {
          offered := Some(packets[index]);
          if linkTakes {
            waiting, deadline := true, now + 5.0 + retry as real;
          }
        }
      }
    }

    method Stop()
      requires Valid()
      modifies this`status
      ensures Valid() && View() == AfterStop(old(View()))
      ensures status == if old(status) == Sending then Cancelled else old(status)
    {
      if status == Sending {
        status := Cancelled;
      }
    }
  }

  // ---------- Runs and their log ----------

  datatype Action = Hear(ack: Ack, at: real) | Time(at: real, accepted: bool) | Stop

  function After(t: Transfer, a: Action): Transfer
    requires t.status == Sending ==> t.index < |t.packets|
  {
    match a
    case Hear(ack, now) => AfterAck(t, ack, now)
    case Time(now, accepted) => AfterTick(t, now, accepted)
    case Stop => AfterStop(t)
  }

  /** The link took a packet, or its destination confirmed it. */
  datatype Entry = Took(index: nat) | Confirmed(index: nat)

  function Entries(t: Transfer, a: Action): seq<Entry>
    requires t.status == Sending ==> t.index < |t.packets|
  {
    match a
    case Hear(ack, now) => if t.status == Sending && Confirms(t, ack) then [Confirmed(t.index)] else []
    case Time(now, accepted) => if Ready(AfterTimeout(t, now), now) && accepted then [Took(t.index)] else []
    case Stop => []
  }

  /** The state and the log after some actions. */
  function Play(packets: seq<Packet>, actions: seq<Action>): (r: (Transfer, seq<Entry>))
    requires packets != []
    ensures r.0.packets == packets && (r.0.status == Sending ==> r.0.index < |packets|)
  {
    if actions == [] then (Fresh(packets), [])
    else
      var (t, log) := Play(packets, actions[..|actions| - 1]);
      var a := actions[|actions| - 1];
      (After(t, a), log + Entries(t, a))
  }

  function Attempts(log: seq<Entry>, k: nat): nat {
    if log == [] then 0
    else Attempts(log[..|log| - 1], k) + if log[|log| - 1] == Took(k) then 1 else 0
  }

  function Confirmations(log: seq<Entry>): seq<nat> {
    if log == [] then []
    else Confirmations(log[..|log| - 1]) + if log[|log| - 1].Confirmed? then [log[|log| - 1].index] else []
  }

  function Upto(n: nat): (s: seq<nat>)
    ensures |s| == n && forall i :: 0 <= i < n ==> s[i] == i
  {
    seq(n, i requires 0 <= i => i)
  }

  /** Each confirmation comes directly after the link took that very packet. */
  ghost predicate ConfirmedAfterTaken(log: seq<Entry>) {
    forall p :: 0 <= p < |log| && log[p].Confirmed? ==> p > 0 && log[p - 1] == Took(log[p].index)
  }

  ghost predicate Accounted(t: Transfer, log: seq<Entry>) {
    && ConfirmedAfterTaken(log) && Confirmations(log) == Upto(t.index)
    && (forall k: nat :: Attempts(log, k) <= MAX_RETRIES + 1)
    && (forall k: nat :: k > t.index ==> Attempts(log, k) == 0)
    && Attempts(log, t.index) == t.retry + (if t.waiting then 1 else 0)
    && (t.waiting ==> log != [] && log[|log| - 1] == Took(t.index))
    && (t.status == Sending ==> t.retry <= MAX_RETRIES)
    && (t.status == Delivered <==> t.index == |t.packets|) && t.index <= |t.packets|
  }

  lemma EntryCounts(log: seq<Entry>, e: Entry)
    ensures forall k: nat :: Attempts(log + [e], k) == Attempts(log, k) + if e == Took(k) then 1 else 0
    ensures Confirmations(log + [e]) == Confirmations(log) + if e.Confirmed? then [e.index] else []
  {
    assert (log + [e])[..|log|] == log;
  }

  lemma AckAccounted(t: Transfer, log: seq<Entry>, a: Ack, now: real)
    requires Accounted(t, log) && t.status == Sending && t.index < |t.packets| && Confirms(t, a)
    ensures Accounted(AfterAck(t, a, now), log + [Confirmed(t.index)])
  {
    EntryCounts(log, Confirmed(t.index));
    hide Attempts, Confirmations;
    assert Upto(t.index) + [t.index] == Upto(t.index + 1);
  }

  lemma TimeoutAccounted(t: Transfer, log: seq<Entry>, now: real)
    requires Accounted(t, log)
    ensures Accounted(AfterTimeout(t, now), log) && AfterTimeout(t, now).index == t.index
  {
    hide Attempts, Confirmations, ConfirmedAfterTaken, Upto;
  }

  lemma TakeAccounted(t: Transfer, log: seq<Entry>, deadline: real)
    requires Accounted(t, log) && t.status == Sending && !t.waiting
    ensures Accounted(t.(waiting := true, deadline := deadline), log + [Took(t.index)])
  {
    EntryCounts(log, Took(t.index));
    hide Attempts, Confirmations, Upto;
  }

  lemma StepAccounted(t: Transfer, log: seq<Entry>, a: Action)
    requires Accounted(t, log) && (t.status == Sending ==> t.index < |t.packets|)
    ensures Accounted(After(t, a), log + Entries(t, a))
  {
    hide Accounted;
    if Entries(t, a) == [] {
      assert log + Entries(t, a) == log;
    }
    match a
    case Hear(ack, now) =>
      if t.status == Sending && Confirms(t, ack) {
        AckAccounted(t, log, ack, now);
      }
    case Time(now, accepted) =>
      TimeoutAccounted(t, log, now);
      var u := AfterTimeout(t, now);
      if Ready(u, now) && accepted {
        TakeAccounted(u, log, now + 5.0 + u.retry as real);
      }
    case Stop =>
      StopAccounted(t, log);
  }

  lemma StopAccounted(t: Transfer, log: seq<Entry>)
    requires Accounted(t, log) && (t.status == Sending ==> t.index < |t.packets|)
    ensures Accounted(AfterStop(t), log)
  {
    hide Attempts, Confirmations, ConfirmedAfterTaken, Upto;
  }

  lemma {:induction false} AccountedInEveryRun(packets: seq<Packet>, actions: seq<Action>)
    requires packets != []
    ensures var (t, log) := Play(packets, actions); Accounted(t, log)
  {
    if actions != [] {
      AccountedInEveryRun(packets, actions[..|actions| - 1]);
      var (t, log) := Play(packets, actions[..|actions| - 1]);
      hide Accounted, After, Entries;
      StepAccounted(t, log, actions[|actions| - 1]);
    }
  }

  /** Delivered means: the destination confirmed every packet, in order, each directly after the link took it; and in
      every run, delivered or not, the link takes no packet more than five times. */
  lemma DeliveredMeansConfirmed(packets: seq<Packet>, actions: seq<Action>)
    requires packets != []
    ensures var (t, log) := Play(packets, actions);
      && (t.status == Delivered <==> Confirmations(log) == Upto(|packets|))
      && ConfirmedAfterTaken(log)
      && forall k: nat :: Attempts(log, k) <= 5
  {
    AccountedInEveryRun(packets, actions);
    hide Attempts, Confirmations, ConfirmedAfterTaken, Play;
    var (t, log) := Play(packets, actions);
    assert |Upto(t.index)| == t.index;
  }

  // ---------- Every transfer ends ----------

  /** What is left to do: at most eleven changes for each packet. */
  function Remaining(t: Transfer): int {
    if t.status != Sending then 0
    else 11 * (|t.packets| - t.index) - 2 * t.retry - if t.waiting then 1 else 0
  }

  /** Whatever changes the transfer brings its end nearer. */
  lemma ChangeIsProgress(t: Transfer, log: seq<Entry>, a: Action)
    requires Accounted(t, log) && (t.status == Sending ==> t.index < |t.packets|)
    ensures Remaining(t) >= 0
    ensures After(t, a) != t ==> Remaining(After(t, a)) < Remaining(t)
  {
    hide Attempts, Confirmations, ConfirmedAfterTaken, Upto;
  }

  function Changes(packets: seq<Packet>, actions: seq<Action>): nat
    requires packets != []
  {
    if actions == [] then 0
    else
      var t := Play(packets, actions[..|actions| - 1]).0;
      Changes(packets, actions[..|actions| - 1]) + if After(t, actions[|actions| - 1]) != t then 1 else 0
  }

  /** In every run a transfer of n packets changes at most 11n times: it cannot go on for ever. */
  lemma {:induction false} TransfersEnd(packets: seq<Packet>, actions: seq<Action>)
    requires packets != []
    ensures Changes(packets, actions) + Remaining(Play(packets, actions).0) <= 11 * |packets|
    ensures Changes(packets, actions) <= 11 * |packets|
  {
    AccountedInEveryRun(packets, actions);
    var (t', log') := Play(packets, actions);
    if actions != [] {
      var front, a := actions[..|actions| - 1], actions[|actions| - 1];
      TransfersEnd(packets, front);
      AccountedInEveryRun(packets, front);
      var (t, log) := Play(packets, front);
      assert t' == After(t, a);
      hide Accounted, After, Play, Remaining;
      ChangeIsProgress(t, log, a);
      ChangeIsProgress(t', log', a);
    }
  }
}
