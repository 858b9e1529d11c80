/**
 * The translator's data: CAN messages, the signal and command catalogue, the
 * bounded message queues and the buses that own them.
 */
module Can {
  import opened Bytes

  /** A CAN frame: a 32-bit identifier and the 8-byte payload held in a 64-bit integer. */
  datatype CanMessage = CanMessage(id: uint32, data: uint64)

  /** The payload bytes as they lie in memory on a little-endian host. */
  function PayloadBytes(m: CanMessage): (r: seq<byte>)
    ensures |r| == 8
  {
    LeBytes(m.data, 8)
  }

  /**
   * A catalogue signal.  The scaling factor, offset and range used when a
   * value is encoded are not part of this model.
   */
  datatype CanSignal = CanSignal(name: string, messageId: uint32, bitPosition: nat, bitSize: nat, writable: bool)

  /** A catalogue command; its handler is identified by the command's name. */
  datatype CanCommand = CanCommand(name: string)

  /** The static tables of signals and commands. */
  datatype Catalog = Catalog(signals: seq<CanSignal>, commands: seq<CanCommand>)

  /** One push onto a queue holding `q` with room for `capacity`: a full queue drops the message. */
  function QueuePush(q: seq<CanMessage>, capacity: nat, m: CanMessage): (r: seq<CanMessage>)
    ensures |r| == if |q| < capacity then |q| + 1 else |q|
    ensures |q| <= capacity ==> |r| <= capacity
  {
    if |q| < capacity then q + [m] else q
  }

  /** Pushing `ms` one by one, each push's failure ignored. */
  function PushAll(q: seq<CanMessage>, capacity: nat, ms: seq<CanMessage>): seq<CanMessage>
  {
    if ms == [] then q else QueuePush(PushAll(q, capacity, ms[..|ms| - 1]), capacity, ms[|ms| - 1])
  }

  /** Pushing one more message after a sequence is one more QUEUE_PUSH. */
  lemma PushAllSnoc(q: seq<CanMessage>, capacity: nat, ms: seq<CanMessage>, m: CanMessage)
    ensures PushAll(q, capacity, ms + [m]) == QueuePush(PushAll(q, capacity, ms), capacity, m)
  {
    assert (ms + [m])[..|ms|] == ms;
  }

  /**
   * Pushing a sequence whose failures are ignored keeps the longest prefix that
   * fits and drops the rest, in order.
   */
  lemma {:induction false} PushAllKeepsPrefix(q: seq<CanMessage>, capacity: nat, ms: seq<CanMessage>)
    requires |q| <= capacity
    ensures var kept := if |ms| <= capacity - |q| then |ms| else capacity - |q|;
            PushAll(q, capacity, ms) == q + ms[..kept]
  {
    if ms != [] {
      var init := ms[..|ms| - 1];
      PushAllKeepsPrefix(q, capacity, init);
      assert init[..|init|] == init;
      var keptInit := if |init| <= capacity - |q| then |init| else capacity - |q|;
      if |init| < capacity - |q| {
        assert ms[..keptInit + 1] == init[..keptInit] + [ms[|ms| - 1]];
      } else {
        assert init[..keptInit] == ms[..capacity - |q|];
      }
    }
  }

  /** A bounded FIFO of CAN messages (one direction of one bus). */
  class CanQueue {
    var items: seq<CanMessage>
    const capacity: nat

    ghost predicate Valid()
      reads this
    {
      |items| <= capacity
    }

    constructor (capacity: nat)
      ensures Valid() && items == [] && this.capacity == capacity
    {
      this.capacity := capacity;
      items := [];
    }

    predicate IsEmpty()
      reads this
      ensures IsEmpty() <==> |items| == 0
    {
      items == []
    }

    /** QUEUE_PUSH: appends `m` unless the queue is full; `ok` says whether it did. */
    method Push(m: CanMessage) returns (ok: bool)
      requires Valid()
      modifies this
      ensures Valid()
      ensures ok <==> |old(items)| < capacity
      ensures items == QueuePush(old(items), capacity, m)
    {
      ok := |items| < capacity;
      if ok {
        items := items + [m];
      }
    }

    /** QUEUE_POP: removes and returns the oldest message of a non-empty queue. */
    method Pop() returns (m: CanMessage)
      requires Valid() && !IsEmpty()
      modifies this
      ensures Valid()
      ensures m == old(items)[0] && items == old(items)[1..]
    {
      m := items[0];
      items := items[1..];
    }
  }

  /** A CAN bus with its receive and send queues. */
  class CanBus {
    const receiveQueue: CanQueue
    const sendQueue: CanQueue

    ghost predicate Valid()
      reads this, receiveQueue, sendQueue
    {
      receiveQueue != sendQueue && receiveQueue.Valid() && sendQueue.Valid()
    }

    constructor (receiveCapacity: nat, sendCapacity: nat)
      ensures Valid() && fresh(receiveQueue) && fresh(sendQueue)
      ensures receiveQueue.items == [] && receiveQueue.capacity == receiveCapacity
      ensures sendQueue.items == [] && sendQueue.capacity == sendCapacity
    {
      receiveQueue := new CanQueue(receiveCapacity);
      sendQueue := new CanQueue(sendCapacity);
    }
  }
}
