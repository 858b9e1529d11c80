/**
 * The translator's entry points for one write request from the host
 * (`receiveWriteRequest`) and for one received CAN message (`receiveCan`).
 */
module CanTranslator {
  import opened Wrappers
  import opened Bytes
  import opened Can
  import opened BinaryWrite
  import opened JsonWrite

  /**
   * receiveWriteRequest: a transmitter build reads the buffer as binary frames
   * and always reports a message found; any other build parses it as JSON and
   * reports whether it parsed.  The build flag is the parameter `transmitter`;
   * `parsed` is what the JSON parser makes of the buffer.
   */
  method ReceiveWriteRequest(transmitter: bool, message: array<byte>, parsed: Option<JsonObject>,
                             catalog: Catalog, bus0: CanBus)
    returns (found: bool, action: Option<WriteAction>)
    requires transmitter ==> message.Length >= BUFFER_SIZE
    requires bus0.Valid()
    modifies bus0.sendQueue
    ensures bus0.Valid()
    ensures transmitter ==> found && action == None
    ensures transmitter ==>
              bus0.sendQueue.items == PushAll(old(bus0.sendQueue.items), bus0.sendQueue.capacity, Frames(message[..], 0))
    ensures !transmitter ==> (found <==> parsed.Some?) && action == Some(JsonWriteRequest(parsed, catalog))
    ensures !transmitter ==>
              bus0.sendQueue.items
              == if action.value.PushRaw?
                 then QueuePush(old(bus0.sendQueue.items), bus0.sendQueue.capacity, action.value.message)
                 else old(bus0.sendQueue.items)
  {
    if transmitter {
      ReceiveBinaryWriteRequest(message, bus0);
      found, action := true, None;
    } else {
      var decided;
      found, decided := ReceiveJsonWriteRequest(parsed, catalog, bus0);
      action := Some(decided);
    }
  }

  /** What one call of receiveCan does to a receive queue: the message it decodes, if any, and the queue left. */
  function Receive(q: seq<CanMessage>): (r: (Option<CanMessage>, seq<CanMessage>))
    ensures r.0.None? <==> q == []
    ensures (if r.0.Some? then [r.0.value] else []) + r.1 == q
  {
    if q == [] then (None, q) else (Some(q[0]), q[1..])
  }

  /** `rounds` calls of receiveCan, one per pass of the main loop: the messages decoded, in order, and the queue left. */
  function ReceiveRounds(q: seq<CanMessage>, rounds: nat): (seq<CanMessage>, seq<CanMessage>)
  {
    if rounds == 0 then ([], q)
    else
      var (first, rest) := Receive(q);
      var (later, left) := ReceiveRounds(rest, rounds - 1);
      ((if first.Some? then [first.value] else []) + later, left)
  }

  /**
   * One message per pass: after `rounds` passes the oldest `rounds` messages
   * (or all of them) have been decoded in arrival order and the rest wait.
   */
  lemma {:induction false} ReceiveRoundsInOrder(q: seq<CanMessage>, rounds: nat)
    ensures var n := if rounds <= |q| then rounds else |q|;
            ReceiveRounds(q, rounds) == (q[..n], q[n..])
  {
    if rounds > 0 && q != [] {
      ReceiveRoundsInOrder(q[1..], rounds - 1);
      var n := if rounds <= |q| then rounds else |q|;
      assert [q[0]] + q[1..][..n - 1] == q[..n];
      assert q[1..][n - 1..] == q[n..];
    } else if rounds > 0 {
      ReceiveRoundsInOrder(q, rounds - 1);
    }
  }

  /**
   * receiveCan: pops at most one message from the bus's receive queue and
   * returns it as the message handed to the decoder; an empty queue is left
   * alone.
   */
  method ReceiveCan(bus: CanBus) returns (decoded: Option<CanMessage>)
    requires bus.Valid()
    modifies bus.receiveQueue
    ensures bus.Valid()
    ensures (decoded, bus.receiveQueue.items) == Receive(old(bus.receiveQueue.items))
  {
    if !bus.receiveQueue.IsEmpty() {
      var message := bus.receiveQueue.Pop();
      decoded := Some(message);
    } else {
      decoded := None;
    }
  }
}
