/** The bounded ring of completed messages that wait for the application. */
module InboundQueues {
  import opened Wrappers
  import opened Reassembly

  const QUEUE_DEPTH := 48

  const NO_MESSAGE := Message(NO_KEY, 0, 0, None, [])

  function Position(head: nat, i: nat): nat { (head + i) % QUEUE_DEPTH }

  class InboundQueue {
    const items: array<Message>
    var head: nat
    var tail: nat
    var count: nat
    ghost var contents: seq<Message>

    ghost predicate Valid()
      reads this, items
    {
      && items.Length == QUEUE_DEPTH && head < QUEUE_DEPTH && count <= QUEUE_DEPTH
      && tail == Position(head, count)
      && |contents| == count
      && forall i :: 0 <= i < count ==> contents[i] == items[Position(head, i)]
    }

    constructor ()
      ensures Valid() && fresh(items) && contents == []
    {
      items := new Message[QUEUE_DEPTH](_ => NO_MESSAGE);
      head, tail, count := 0, 0, 0;
      contents := [];
    }

    /** Appends a message unless the queue is full. */
    method Push(m: Message) returns (ok: bool)
      requires Valid()
      modifies this, items
      ensures Valid() && ok == (|old(contents)| < QUEUE_DEPTH)
      ensures contents == if ok then old(contents) + [m] else old(contents)
    {
      if count >= QUEUE_DEPTH {
        return false;
      }
      forall i | 0 <= i < count
        ensures Position(head, i) != tail
      {
        SlotsDiffer(head, i, count);
      }
      items[tail] := m;
      tail := (tail + 1) % QUEUE_DEPTH;
      count := count + 1;
      contents := contents + [m];
      return true;
    }

    /** Takes the oldest message. */
    method Pop() returns (m: Option<Message>)
      requires Valid()
      modifies this
      ensures Valid()
      ensures m == if old(contents) == [] then None else Some(old(contents)[0])
      ensures contents == if old(contents) == [] then [] else old(contents)[1..]
    {
      if count == 0 {
        return None;
      }
      ghost var from := head;
      forall i | 0 <= i < count - 1
        ensures Position(Position(from, 1), i) == Position(from, i + 1)
      {
        PositionShifts(from, i);
      }
      assert Position(from, 0) == from && Position(Position(from, 1), count - 1) == Position(from, count) by {
        PositionShifts(from, count - 1);
      }
      m := Some(items[head]);
      head := (head + 1) % QUEUE_DEPTH;
      assert head == Position(from, 1) < QUEUE_DEPTH;
      hide Position;
      count := count - 1;
      contents := contents[1..];
    }
  }

  lemma SlotsDiffer(head: nat, i: nat, count: nat)
    requires head < QUEUE_DEPTH && i < count < QUEUE_DEPTH
    ensures Position(head, i) != Position(head, count)
  {
  }

  lemma PositionShifts(head: nat, i: nat)
    ensures Position(Position(head, 1), i) == Position(head, i + 1)
  {
  }
}
