/**
 * The binary write-request scanner (`receiveBinaryWriteRequest`).
 *
 * A host buffer of 64 bytes holds 15-byte frames packed back to back:
 *
 *   '{'  id (4 bytes)  '|'  payload (8 bytes)  '}'
 *
 * The scan starts at offset 0 and, while the byte under the cursor is not the
 * sentinel '!' and `index + 15 < 64`, checks the three delimiters.  A
 * delimited frame is copied verbatim into a CAN message, pushed onto bus 0's
 * send queue, and the cursor moves 15 bytes on.
 *
 * On a frame whose delimiters do not match, the source logs it and continues
 * the loop WITHOUT moving the cursor, so the loop repeats the same iteration
 * forever.  `NextIndexAsWritten` and the lemmas after it model and exhibit
 * that behaviour; `Frames` and `ReceiveBinaryWriteRequest` model the scan
 * with the evident intent, moving the cursor one byte past a corrupted frame.
 */
module BinaryWrite {
  import opened Bytes
  import opened Can

  const BUFFER_SIZE: nat := 64
  const PACKET_LENGTH: nat := 15
  const SENTINEL: byte := 0x21     // '!'
  const FRAME_START: byte := 0x7B  // '{'
  const SEPARATOR: byte := 0x7C    // '|'
  const FRAME_END: byte := 0x7D    // '}'

  /** What one iteration of the scan loop does at the cursor. */
  datatype Step =
    | Stop                          // loop guard false: sentinel, or no room for another frame
    | Corrupt                       // a delimiter does not match
    | Accept(message: CanMessage)   // a frame, copied into a message and pushed

  /** The three delimiters of a frame starting at `index` are in place. */
  predicate Delimited(buf: seq<byte>, index: nat)
    requires index + PACKET_LENGTH <= |buf|
  {
    buf[index] == FRAME_START && buf[index + 5] == SEPARATOR && buf[index + 14] == FRAME_END
  }

  /**
   * One iteration of the scan at `index`: the guard, the delimiter check and
   * the copy of the id and payload bytes (little-endian host).
   */
  function ScanStep(buf: seq<byte>, index: nat): (r: Step)
    requires |buf| >= BUFFER_SIZE && index < BUFFER_SIZE
    ensures r.Stop? <==> buf[index] == SENTINEL || index + PACKET_LENGTH >= BUFFER_SIZE
    ensures r.Accept? <==> index + PACKET_LENGTH < BUFFER_SIZE && Delimited(buf, index)
    ensures r.Accept? ==> LeBytes(r.message.id, 4) == buf[index + 1..index + 5]
    ensures r.Accept? ==> PayloadBytes(r.message) == buf[index + 6..index + 14]
  {
    if buf[index] == SENTINEL || index + PACKET_LENGTH >= BUFFER_SIZE then Stop
    else if !Delimited(buf, index) then Corrupt
    else
      var idBytes, dataBytes := buf[index + 1..index + 5], buf[index + 6..index + 14];
      Pow256Widths();
      LeBytesOfLeValue(idBytes);
      LeBytesOfLeValue(dataBytes);
      Accept(CanMessage(LeValue(idBytes), LeValue(dataBytes)))
  }

  /** The scan never looks at a byte past offset 63 of the host buffer. */
  lemma ScanStepReadsFirst64(buf: seq<byte>, other: seq<byte>, index: nat)
    requires |buf| >= BUFFER_SIZE && |other| >= BUFFER_SIZE && index < BUFFER_SIZE
    requires buf[..BUFFER_SIZE] == other[..BUFFER_SIZE]
    ensures ScanStep(buf, index) == ScanStep(other, index)
  {
    assert forall k :: 0 <= k < BUFFER_SIZE ==> buf[k] == buf[..BUFFER_SIZE][k] == other[k];
    if !ScanStep(buf, index).Stop? {
      assert buf[index + 1..index + 5] == other[index + 1..index + 5];
      assert buf[index + 6..index + 14] == other[index + 6..index + 14];
    }
  }

  // ---------------------------------------------------------------------
  // The scan as written: a corrupted frame leaves the cursor where it is.

  /** The cursor after one iteration of the source's loop body. */
  function NextIndexAsWritten(buf: seq<byte>, index: nat): (r: nat)
    requires |buf| >= BUFFER_SIZE && index < BUFFER_SIZE
    requires !ScanStep(buf, index).Stop?
    ensures r == index <==> !Delimited(buf, index)
    ensures r != index ==> r == index + PACKET_LENGTH && r < BUFFER_SIZE
  {
    if ScanStep(buf, index).Corrupt? then index else index + PACKET_LENGTH
  }

  /** The cursor of the source's loop after `n` evaluations of its guard (it stays put once the loop exits). */
  function IndexAfterAsWritten(buf: seq<byte>, n: nat): (r: nat)
    requires |buf| >= BUFFER_SIZE
    ensures r < BUFFER_SIZE
  {
    if n == 0 then 0
    else
      var i := IndexAfterAsWritten(buf, n - 1);
      if ScanStep(buf, i).Stop? then i else NextIndexAsWritten(buf, i)
  }

  /** The loop as written only ever visits offsets 0, 15, 30, 45 and 60, so it accepts frames at 0, 15, 30 and 45 only. */
  lemma {:induction false} AsWrittenIndexAligned(buf: seq<byte>, n: nat)
    requires |buf| >= BUFFER_SIZE
    ensures IndexAfterAsWritten(buf, n) in {0, 15, 30, 45, 60}
  {
    if n > 0 {
      AsWrittenIndexAligned(buf, n - 1);
    }
  }

  /**
   * Once the loop as written meets a corrupted frame it stays at that frame
   * for every later iteration: its guard stays true and it never exits.
   */
  lemma {:induction false} AsWrittenStallsOnCorruptFrame(buf: seq<byte>, n: nat, m: nat)
    requires |buf| >= BUFFER_SIZE
    requires ScanStep(buf, IndexAfterAsWritten(buf, n)).Corrupt?
    ensures IndexAfterAsWritten(buf, n + m) == IndexAfterAsWritten(buf, n)
  {
    if m > 0 {
      AsWrittenStallsOnCorruptFrame(buf, n, m - 1);
    }
  }

  // ---------------------------------------------------------------------
  // Frames as the host writes them.

  /** The 15 bytes a host sends for `m` (little-endian host). */
  function EncodeFrame(m: CanMessage): (r: seq<byte>)
    ensures |r| == PACKET_LENGTH
  {
    [FRAME_START] + LeBytes(m.id, 4) + [SEPARATOR] + LeBytes(m.data, 8) + [FRAME_END]
  }

  /** Frames for `ms`, back to back. */
  function EncodeFrames(ms: seq<CanMessage>): (r: seq<byte>)
    ensures |r| == PACKET_LENGTH * |ms|
  {
    if ms == [] then [] else EncodeFrame(ms[0]) + EncodeFrames(ms[1..])
  }

  function Zeros(n: nat): (r: seq<byte>)
    ensures |r| == n && forall i :: 0 <= i < n ==> r[i] == 0
  {
    seq(n, i => 0)
  }

  /** The scan at the start of an encoded frame accepts exactly that frame's message. */
  lemma AcceptEncodedFrame(buf: seq<byte>, index: nat, m: CanMessage)
    requires |buf| >= BUFFER_SIZE && index + PACKET_LENGTH < BUFFER_SIZE
    requires buf[index..index + PACKET_LENGTH] == EncodeFrame(m)
    ensures ScanStep(buf, index) == Accept(m)
  {
    var frame := EncodeFrame(m);
    assert forall k :: 0 <= k < PACKET_LENGTH ==> buf[index + k] == buf[index..index + PACKET_LENGTH][k] == frame[k];
    assert buf[index] == frame[0] && buf[index + 5] == frame[5] && buf[index + 14] == frame[14];
    assert frame[1..5] == LeBytes(m.id, 4);
    assert frame[6..14] == LeBytes(m.data, 8);
    assert buf[index + 1..index + 5] == frame[1..5];
    assert buf[index + 6..index + 14] == frame[6..14];
    Pow256Widths();
    LeValueOfLeBytes(m.id, 4);
    LeValueOfLeBytes(m.data, 8);
  }

  /** A one-frame message padded with zero bytes, as a host might send it without a sentinel. */
  function PaddedFrame(m: CanMessage): (r: seq<byte>)
    ensures |r| == BUFFER_SIZE
  {
    EncodeFrame(m) + Zeros(BUFFER_SIZE - PACKET_LENGTH)
  }

  /**
   * Counterexample: a single valid frame followed by zero padding.  The loop
   * as written accepts the frame, then meets the padding at offset 15 as a
   * corrupted frame and stays there on every later iteration.
   */
  lemma PaddedFrameStallsAsWritten(m: CanMessage, n: nat)
    requires n >= 1
    ensures ScanStep(PaddedFrame(m), 0) == Accept(m)
    ensures IndexAfterAsWritten(PaddedFrame(m), n) == PACKET_LENGTH
    ensures ScanStep(PaddedFrame(m), PACKET_LENGTH).Corrupt?
  {
    var buf := PaddedFrame(m);
    assert buf[0..PACKET_LENGTH] == EncodeFrame(m);
    AcceptEncodedFrame(buf, 0, m);
    assert IndexAfterAsWritten(buf, 1) == PACKET_LENGTH;
    assert buf[PACKET_LENGTH] == 0;
    AsWrittenStallsOnCorruptFrame(buf, 1, n - 1);
  }

  // ---------------------------------------------------------------------
  // The scan with forward progress: a corrupted frame moves the cursor one byte.

  /**
   * The messages the scan pushes, in order, starting at `index`: their
   * frames fit between the cursor and the end of the buffer, so from offset 0
   * there are at most four.
   */
  function Frames(buf: seq<byte>, index: nat): (r: seq<CanMessage>)
    requires |buf| >= BUFFER_SIZE && index < BUFFER_SIZE
    ensures index + PACKET_LENGTH * |r| < BUFFER_SIZE
    decreases BUFFER_SIZE - index
  {
    match ScanStep(buf, index)
    case Stop => []
    case Corrupt => Frames(buf, index + 1)
    case Accept(m) => [m] + Frames(buf, index + PACKET_LENGTH)
  }

  /** Only delimited frames are pushed: every message the scan yields is one it accepted at or after the cursor. */
  lemma {:induction false} FramesAreAccepted(buf: seq<byte>, index: nat, k: nat)
    requires |buf| >= BUFFER_SIZE && index < BUFFER_SIZE
    requires k < |Frames(buf, index)|
    ensures exists j :: index <= j < BUFFER_SIZE && ScanStep(buf, j) == Accept(Frames(buf, index)[k])
    decreases BUFFER_SIZE - index
  {
    match ScanStep(buf, index)
    case Stop =>
    case Corrupt => FramesAreAccepted(buf, index + 1, k);
    case Accept(m) =>
      if k > 0 {
        FramesAreAccepted(buf, index + PACKET_LENGTH, k - 1);
      }
  }

  lemma FramesAtMostFour(buf: seq<byte>)
    requires |buf| >= BUFFER_SIZE
    ensures |Frames(buf, 0)| <= 4
  {
  }

  /**
   * Round trip: frames encoded back to back from `index`, followed by the
   * sentinel (or by too little room for another frame), scan back to exactly
   * the encoded messages.
   */
  lemma {:induction false} FramesOfEncoded(buf: seq<byte>, index: nat, ms: seq<CanMessage>)
    requires |buf| >= BUFFER_SIZE && index + PACKET_LENGTH * |ms| < BUFFER_SIZE
    requires buf[index..index + PACKET_LENGTH * |ms|] == EncodeFrames(ms)
    requires index + PACKET_LENGTH * |ms| + PACKET_LENGTH >= BUFFER_SIZE
          || buf[index + PACKET_LENGTH * |ms|] == SENTINEL
    ensures Frames(buf, index) == ms
    decreases |ms|
  {
    if ms != [] {
      var end := index + PACKET_LENGTH * |ms|;
      var next := index + PACKET_LENGTH;
      assert EncodeFrames(ms) == EncodeFrame(ms[0]) + EncodeFrames(ms[1..]);
      assert buf[index..next] == buf[index..end][..PACKET_LENGTH];
      AcceptEncodedFrame(buf, index, ms[0]);
      assert next + PACKET_LENGTH * |ms[1..]| == end;
      assert buf[next..end] == buf[index..end][PACKET_LENGTH..];
      FramesOfEncoded(buf, next, ms[1..]);
    }
  }

  /** With forward progress, the padding after a frame is skipped byte by byte until the scan stops. */
  lemma {:induction false} FramesOfZeros(buf: seq<byte>, index: nat)
    requires |buf| >= BUFFER_SIZE && PACKET_LENGTH <= index < BUFFER_SIZE
    requires forall i :: PACKET_LENGTH <= i < BUFFER_SIZE ==> buf[i] == 0
    ensures Frames(buf, index) == []
    decreases BUFFER_SIZE - index
  {
    if index + PACKET_LENGTH < BUFFER_SIZE {
      FramesOfZeros(buf, index + 1);
    }
  }

  /** The buffer that stalls the loop as written yields exactly its one frame once corrupted frames advance the cursor. */
  lemma PaddedFrameScansToOneMessage(m: CanMessage)
    ensures Frames(PaddedFrame(m), 0) == [m]
  {
    var buf := PaddedFrame(m);
    assert buf[0..PACKET_LENGTH] == EncodeFrame(m);
    AcceptEncodedFrame(buf, 0, m);
    FramesOfZeros(buf, PACKET_LENGTH);
  }

  /**
   * receiveBinaryWriteRequest with forward progress: pushes every frame the
   * scan accepts onto bus 0's send queue, in order; pushes that find the
   * queue full are dropped, as the source ignores their result.
   */
  method ReceiveBinaryWriteRequest(message: array<byte>, bus0: CanBus)
    requires message.Length >= BUFFER_SIZE
    requires bus0.Valid()
    modifies bus0.sendQueue
    ensures bus0.Valid()
    ensures bus0.sendQueue.items
         == PushAll(old(bus0.sendQueue.items), bus0.sendQueue.capacity, Frames(message[..], 0))
  {
    ghost var buf := message[..];
    ghost var queue0 := bus0.sendQueue.items;
    var index := 0;
    ghost var pushed: seq<CanMessage> := [];
    while message[index] != SENTINEL && index + PACKET_LENGTH < BUFFER_SIZE
      invariant 0 <= index < BUFFER_SIZE
      invariant message[..] == buf
      invariant bus0.Valid()
      invariant Frames(buf, 0) == pushed + Frames(buf, index)
      invariant bus0.sendQueue.items == PushAll(queue0, bus0.sendQueue.capacity, pushed)
      decreases BUFFER_SIZE - index
    {
      if message[index] != FRAME_START || message[index + 5] != SEPARATOR
          || message[index + 14] != FRAME_END {
        // Corrupted frame: the source continues without moving the cursor.
        assert Frames(buf, 0) == pushed + Frames(buf, index + 1) by {
          assert ScanStep(buf, index) == Corrupt;
        }
        index := index + 1;
        continue;
      }
      var outgoing := PushFrame(message, index, bus0);
      assert Frames(buf, 0) == (pushed + [outgoing]) + Frames(buf, index + PACKET_LENGTH) by {
        assert Frames(buf, index) == [outgoing] + Frames(buf, index + PACKET_LENGTH);
      }
      PushAllSnoc(queue0, bus0.sendQueue.capacity, pushed, outgoing);
      pushed := pushed + [outgoing];
      index := index + PACKET_LENGTH;
    }
    assert ScanStep(buf, index) == Stop;
    assert Frames(buf, index) == [];
    assert Frames(message[..], 0) == pushed;
  }

  /** The body of the scan loop for a delimited frame: copy it into a message and push that onto bus 0's send queue. */
  method PushFrame(message: array<byte>, index: nat, bus0: CanBus) returns (outgoing: CanMessage)
    requires message.Length >= BUFFER_SIZE && index < BUFFER_SIZE
    requires ScanStep(message[..], index).Accept?
    requires bus0.Valid()
    modifies bus0.sendQueue
    ensures bus0.Valid()
    ensures outgoing == ScanStep(message[..], index).message
    ensures bus0.sendQueue.items == QueuePush(old(bus0.sendQueue.items), bus0.sendQueue.capacity, outgoing)
  {
    // memcpy of the id bytes (little-endian host)
    Pow256Widths();
    var id := LeValue(message[index + 1..index + 5]);
    var data := CopyPayload(message, index + 6);
    outgoing := CanMessage(id, data);
    var _ := bus0.sendQueue.Push(outgoing);
  }

  /** The byte-by-byte copy of the 8 payload bytes at `start` into a 64-bit integer (little-endian host). */
  method CopyPayload(message: array<byte>, start: nat) returns (data: uint64)
    requires start + 8 <= message.Length
    ensures data == LeValue(message[start..start + 8])
  {
    Pow256Widths();
    var acc := 0;
    for i := 0 to 8
      invariant acc == LeValue(message[start..start + i])
    {
      LeValueAppend(message[start..start + i], message[start + i]);
      assert message[start..start + i + 1] == message[start..start + i] + [message[start + i]];
      acc := acc + message[start + i] * Pow256(i);
    }
    data := acc;
  }

  /** Appending a byte to little-endian bytes adds it at the next significance. */
  lemma {:induction false} LeValueAppend(bs: seq<byte>, b: byte)
    ensures LeValue(bs + [b]) == LeValue(bs) + b * Pow256(|bs|)
  {
    if bs != [] {
      var rest := bs[1..];
      assert (bs + [b])[1..] == rest + [b];
      LeValueAppend(rest, b);
      var x, p := LeValue(rest), Pow256(|rest|);
      assert 256 * (x + b * p) == 256 * x + b * (256 * p);
    }
  }
}
