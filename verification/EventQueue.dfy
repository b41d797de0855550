/** The fixed ring buffer of events, and the bounded first-in-first-out queue that it implements. */
module EventQueues {
  import opened Events
  import opened Wrappers

  const QUEUE_SIZE := 4096

  /** The slot that ring index `i` stands for. */
  function Wrap(i: nat): nat {
    if i < QUEUE_SIZE then i else i - QUEUE_SIZE
  }

  class EventQueue {
    const buffer: array<Event>
    var head: nat
    var tail: nat
    var count: nat
    ghost var Contents: seq<Event>
    /** Since the last clear: the events that a push took in, and those that a pop handed back. */
    ghost var Accepted: seq<Event>
    ghost var Returned: seq<Event>

    /** The slots from `head` for `count` steps spell out the queue; nothing is lost, duplicated or reordered. */
    ghost predicate Valid()
      reads this, buffer
    {
      && buffer.Length == QUEUE_SIZE
      && head < QUEUE_SIZE && count <= QUEUE_SIZE
      && tail == Wrap(head + count)
      && |Contents| == count
      && (forall k | 0 <= k < count :: buffer[Wrap(head + k)] == Contents[k])
      && Accepted == Returned + Contents
    }

    constructor ()
      ensures Valid() && fresh(buffer) && Contents == Accepted == []
    {
      buffer := new Event[QUEUE_SIZE](_ => ZERO_EVENT);
      head, tail, count := 0, 0, 0;
      Contents, Accepted, Returned := [], [], [];
    }

    method Push(e: Event) returns (ok: bool)
      requires Valid()
      modifies this, buffer
      ensures Valid()
      ensures ok <==> |old(Contents)| < 4096
      ensures Contents == (if ok then old(Contents) + [e] else old(Contents)) && Returned == old(Returned)
    {
      if count >= QUEUE_SIZE {
        return false;
      }
      buffer[tail] := e;
      tail := tail + 1;
      if tail == QUEUE_SIZE {
        tail := 0;
      }
      count := count + 1;
      Contents, Accepted := Contents + [e], Accepted + [e];
      return true;
    }

    method Pop() returns (r: Option<Event>)
      requires Valid()
      modifies this
      ensures Valid()
      ensures old(Contents) == [] ==> r == None && Contents == [] && Returned == old(Returned)
      ensures old(Contents) != [] ==>
        r == Some(old(Contents)[0]) && Contents == old(Contents)[1..] && Returned == old(Returned) + [r.value]
      ensures Accepted == old(Accepted)
    {
      if count == 0 {
        return None;
      }
      r := Some(buffer[head]);
      head := head + 1;
      if head == QUEUE_SIZE {
        head := 0;
      }
      count := count - 1;
      Contents, Returned := Contents[1..], Returned + [Contents[0]];
    }

    method Size() returns (n: nat)
      requires Valid()
      ensures n == |Contents|
    {
      n := count;
    }

    method Clear()
      requires Valid()
      modifies this, buffer
      ensures Valid() && Contents == Accepted == []
    {
      forall i | 0 <= i < buffer.Length {
        buffer[i] := ZERO_EVENT;
      }
      head, tail, count := 0, 0, 0;
      Contents, Accepted, Returned := [], [], [];
    }
  }
}
