# Write-request front end of the CAN translator

This project models the part of the vehicle-interface firmware's CAN
translator (`src/cantranslator.cpp`) that takes write requests from the host
and puts CAN messages onto bus 0's send queue, together with the step that
takes one received message off a bus's receive queue for decoding. It also
models the bit-field reader `getBitField`, whose contract is fixed by the
one-byte unit test in `cantranslator/tests/bitfield_tests.c`.

Modules:

- `Bytes` (`bytes.dfy`): fixed-width integers and the byte layout of a message.
  - The translator fills a message's 32-bit id and 64-bit payload by copying bytes into their memory.
  - The model fixes the host byte order to little-endian: `LeValue` and `LeBytes`.
  - `BeValue` reads bytes most significant first; it is `LeValue` of the reversed bytes.
  - `Bswap64` is `__builtin_bswap64`, defined as the reversal of the eight bytes.
- `BitField` (`bitfield.dfy`): `getBitField(buf, startBit, numBits)`.
  - Bit 0 is the most significant bit of byte 0, and numbering runs byte by byte.
  - The field is returned right-aligned.
  - It is a function of the buffer's value, so reading a field cannot change the buffer.
- `Can` (`can.dfy`): messages and the signal and command catalogue.
  - `CanQueue` is a bounded FIFO whose push silently drops the message when the queue is full.
  - `CanBus` holds a receive queue and a send queue.
- `Signals` (`signals.dfy`): `lookupSignal` and `lookupCommand`, modelled as first-match searches of the catalogue.
- `BinaryWrite` (`binary_write.dfy`): `receiveBinaryWriteRequest`, the scanner for 15-byte binary frames `{ id | payload }` in a 64-byte buffer.
- `JsonWrite` (`json_write.dfy`): `receiveJsonWriteRequest`, `receiveTranslatedWriteRequest` and `receiveRawWriteRequest`.
  - They form a decision function, `JsonWriteRequest`.
  - The function returns which branch fires as a `WriteAction`: the signal to send, the command handler to run, the raw message to push, or why the request is dropped.
  - A thin method applies the push.
- `CanTranslator` (`cantranslator.dfy`): `receiveWriteRequest`, which dispatches on the build mode, and `receiveCan`.

## Model

| member | source | states |
|---|---|---|
| `Bytes.LeBytesOfLeValue` | src/cantranslator.cpp:90-93 | storing the value read from little-endian bytes gives back the same bytes, so a copied id or payload keeps every byte |
| `Bytes.LeValueOfLeBytes` | src/cantranslator.cpp:90-93 | reading back the bytes that store a value that fits gives the value |
| `Bytes.Bswap64` | src/cantranslator.cpp:61 | the bytes of the swapped value are the bytes of the argument in reverse order |
| `Bytes.Bswap64Involution` | src/cantranslator.cpp:61 | swapping twice gives back the original value |
| `Bytes.BeValueIsReversedLeValue` | src/cantranslator.cpp:61 | a value read most significant byte first is the little-endian value of the reversed bytes, so the two byte orders agree |
| `BitField.BitsIndex` | cantranslator/tests/bitfield_tests.c:7-13 | the numbering: bit `8 * j + i` of a buffer is bit `7 - i` of byte `j`, so bit 0 is the most significant bit of byte 0 |
| `BitField.BitsAppend` | cantranslator/tests/bitfield_tests.c:7-16 | the bits of two buffers side by side are the bits of each, in order |
| `BitField.GetBitField` | cantranslator/tests/bitfield_tests.c:8 | `getBitField` returns a right-aligned field: the result is below `2^numBits` |
| `BitField.FieldValue` | cantranslator/tests/bitfield_tests.c:8 | a field `width` bits wide is below `2^width` |
| `BitField.FieldValueConcat` | cantranslator/tests/bitfield_tests.c:8-16 | two adjacent fields read as one equal the first shifted left past the second, plus the second |
| `BitField.FieldValueSameBits` | cantranslator/tests/bitfield_tests.c:8-16 | a field depends only on the bits it spans |
| `BitField.GetBitFieldConcat` | cantranslator/tests/bitfield_tests.c:8-16 | adjacent fields of `getBitField` concatenate, for every buffer, start and widths |
| `BitField.GetBitFieldInByte` | cantranslator/tests/bitfield_tests.c:8-10 | the first `j` bits of byte `k` are that byte shifted right by `8 - j`, so bit 0 is the most significant |
| `BitField.GetBitFieldWholeByte` | cantranslator/tests/bitfield_tests.c:14-16 | an 8-bit field on a byte boundary is that byte |
| `BitField.GetBitFieldPrefix` | cantranslator/tests/bitfield_tests.c:7-16 | bytes after the field are never read: appending bytes to the buffer does not change the field |
| `BitField.GetBitFieldWholeBuffer` | cantranslator/tests/bitfield_tests.c:14-16 | the field spanning the whole buffer is its big-endian value |
| `BitField.GetBitFieldShiftMask` | cantranslator/tests/bitfield_tests.c:7-16 | reference definition: the field is the buffer's big-endian value shifted right past the later bits and masked to `numBits` bits |
| `BitField.OneByteFields` | cantranslator/tests/bitfield_tests.c:7-16 | in a one-byte buffer, bits 0..3 are the high nibble, bits 0..7 the byte, and the byte is bits 0..3 times 16 plus bits 4..7 |
| `BitField.OneByteHighNibble` | cantranslator/tests/bitfield_tests.c:7-10 | bits 0..3 of 0xFA are 0xF |
| `BitField.OneByteLowNibble` | cantranslator/tests/bitfield_tests.c:11-13 | bits 4..7 of 0xFA are 0xA |
| `BitField.OneByteWhole` | cantranslator/tests/bitfield_tests.c:14-16 | bits 0..7 of 0xFA are 0xFA |
| `BitField.NibblesConcatenate` | cantranslator/tests/bitfield_tests.c:8-16 | for every byte, the 8-bit field is the high-nibble field times 16 plus the low-nibble field |
| `Can.QueuePush` | src/cantranslator.cpp:63 | `QUEUE_PUSH` grows the queue by one exactly when it is below capacity and never takes a queue within capacity past it |
| `Can.PushAllSnoc` | src/cantranslator.cpp:94 | pushing one more message after a run of pushes is one more `QUEUE_PUSH` |
| `Can.PushAllKeepsPrefix` | src/cantranslator.cpp:94 | pushes whose result is ignored keep the longest prefix of the messages that fits and drop the rest, in order |
| `Can.CanQueue.Push` | src/cantranslator.cpp:63 | `QUEUE_PUSH` appends the message when the queue has room, otherwise leaves it unchanged, and reports which |
| `Can.CanQueue.IsEmpty` | src/cantranslator.cpp:160 | `QUEUE_EMPTY` holds exactly when the queue holds no message |
| `Can.CanQueue.Pop` | src/cantranslator.cpp:161 | `QUEUE_POP` returns the oldest message and removes exactly it |
| `Signals.LookupSignal` | src/cantranslator.cpp:107-108 | the result is the first signal with the name (and writable, when asked); `None` exactly when there is none |
| `Signals.LookupCommand` | src/cantranslator.cpp:109-110 | the result is the first command with the name; `None` exactly when there is none |
| `Signals.FindSignal` | src/cantranslator.cpp:107-108 | a signal found is in the catalogue and matches the name (and is writable, when asked); none is found exactly when no signal matches |
| `Signals.WritableSignals` | src/cantranslator.cpp:107-108 | every signal kept is in the catalogue and writable |
| `Signals.WritableLookupIgnoresReadOnly` | src/cantranslator.cpp:107-108 | a writable-only lookup finds the same signal whether or not the read-only signals are in the catalogue |
| `BinaryWrite.ScanStep` | src/cantranslator.cpp:77-93 | the loop stops exactly at the sentinel `!` or when `index + 15 >= 64`; a frame is accepted exactly when `{`, `|` and `}` sit at offsets 0, 5 and 14; an accepted message's id bytes are buffer bytes `index+1..index+4` and its payload bytes are `index+6..index+13`, in order |
| `BinaryWrite.ScanStepReadsFirst64` | src/cantranslator.cpp:77-83 | one iteration reads no byte at offset 64 or beyond: buffers agreeing on their first 64 bytes scan alike |
| `BinaryWrite.NextIndexAsWritten` | src/cantranslator.cpp:79-95 | the loop body as written leaves the cursor in place exactly when a delimiter does not match, and otherwise moves it 15 bytes on, still inside the buffer |
| `BinaryWrite.IndexAfterAsWritten` | src/cantranslator.cpp:77-96 | the cursor of the loop as written stays below 64 |
| `BinaryWrite.AsWrittenIndexAligned` | src/cantranslator.cpp:77-96 | the loop as written visits only offsets 0, 15, 30, 45 and 60, so it accepts frames at offsets 0, 15, 30 and 45 only |
| `BinaryWrite.AsWrittenStallsOnCorruptFrame` | src/cantranslator.cpp:79-87 | once the loop as written meets a corrupted frame, the cursor never moves again: the iteration is a fixpoint and the loop does not end |
| `BinaryWrite.AcceptEncodedFrame` | src/cantranslator.cpp:66-93 | a frame laid out as the format describes is accepted as the message it encodes |
| `BinaryWrite.PaddedFrameStallsAsWritten` | src/cantranslator.cpp:79-87 | counterexample: one valid frame followed by zero padding is accepted, then the cursor sticks on offset 15 forever |
| `BinaryWrite.Frames` | src/cantranslator.cpp:77-95 | the frames the corrected scan accepts from `index` fit between the cursor and the end of the buffer: `index + 15 * count < 64` |
| `BinaryWrite.FramesAreAccepted` | src/cantranslator.cpp:79-94 | only delimited frames are pushed: every message the scan yields is one `ScanStep` accepts at some offset at or after the cursor |
| `BinaryWrite.FramesAtMostFour` | src/cantranslator.cpp:77 | one buffer yields at most four messages |
| `BinaryWrite.FramesOfEncoded` | src/cantranslator.cpp:66-96 | round trip: frames written back to back and ended by the sentinel or the end of the buffer scan back to exactly those messages |
| `BinaryWrite.FramesOfZeros` | src/cantranslator.cpp:77-87 | the corrected scan passes over zero padding without accepting anything |
| `BinaryWrite.PaddedFrameScansToOneMessage` | src/cantranslator.cpp:73-97 | the corrected scan turns the counterexample buffer into exactly its one message |
| `BinaryWrite.ReceiveBinaryWriteRequest` | src/cantranslator.cpp:73-97 | the corrected scanner pushes onto bus 0's send queue exactly the frames `Frames` accepts, in order, dropping the pushes that find the queue full |
| `BinaryWrite.PushFrame` | src/cantranslator.cpp:89-94 | the message built from an accepted frame is the one `ScanStep` describes, and exactly one push of it is made |
| `BinaryWrite.CopyPayload` | src/cantranslator.cpp:91-93 | the byte-by-byte copy gives the 64-bit value whose little-endian bytes are the eight buffer bytes |
| `JsonWrite.StrToULongLongHex` | src/cantranslator.cpp:61 | `strtoull` in base 16 never reports more than the value of the leading hex digits, and reports exactly that value when there are at most sixteen of them |
| `JsonWrite.HexValueBelow` | src/cantranslator.cpp:61 | `n` hex digits or fewer spell a number below `16^n` |
| `JsonWrite.SixteenDigitsFit` | src/cantranslator.cpp:61 | at most sixteen hex digits fit in an `unsigned long long` |
| `JsonWrite.HexPrefixLength` | src/cantranslator.cpp:61 | `strtoull` reads exactly the leading hex digits and stops at the first other character |
| `JsonWrite.HexBytes` | src/cantranslator.cpp:61 | a string of digit pairs spells half as many bytes |
| `JsonWrite.HexBytesSnoc` | src/cantranslator.cpp:61 | the last two digits are the last byte, and the value is 256 times the value before them plus that byte |
| `JsonWrite.HexValueOfBytes` | src/cantranslator.cpp:61 | the value of digit pairs is that of the bytes they spell, first byte most significant |
| `JsonWrite.SixteenHexDigits` | src/cantranslator.cpp:61 | sixteen hex digits are read in full, with no saturation, as the big-endian value of the bytes they spell |
| `JsonWrite.SwappedPayload` | src/cantranslator.cpp:61-62 | swapping the big-endian value of eight bytes lays those bytes out in the payload in order |
| `JsonWrite.HexPayload` | src/cantranslator.cpp:59-62 | the message built from 16 hex digits carries the bytes they spell, in the order written |
| `JsonWrite.ToUint32` | src/cantranslator.cpp:52 | the conversion to `uint32_t` agrees with the id modulo 2^32 and leaves an id that fits unchanged |
| `JsonWrite.RawWriteRequest` | src/cantranslator.cpp:51-64 | dropped exactly when "data" is missing (reporting the id as `uint32_t`); a null string exactly when "data" is not a string; otherwise one message whose id is "id" as `uint32_t` and whose payload bytes are the `strtoull` value's bytes, most significant first |
| `JsonWrite.TranslatedWriteRequest` | src/cantranslator.cpp:99-118 | dropped exactly when "value" is missing; a null string exactly when "value" is present and "name" is not a string; a signal sent is a writable catalogue signal of that name, with "value"; a command run is a catalogue command of that name, only when no writable signal has it; a write refused names neither |
| `JsonWrite.JsonWriteRequest` | src/cantranslator.cpp:120-143 | `Unparsed` exactly when parsing fails; malformed exactly when neither "name" nor "id" is present; a raw push exactly when "name" is absent and "id" and a string "data" are present; a signal send or command run only with "name" and "value" |
| `JsonWrite.NameTakesPrecedence` | src/cantranslator.cpp:125-136 | with "name" present the outcome is the same whether or not "id" is present and whatever it holds, and no raw message is pushed |
| `JsonWrite.SignalBeatsCommand` | src/cantranslator.cpp:107-114 | when a writable signal of the name exists, that signal is sent with "value", even if a command has the same name |
| `JsonWrite.CommandRunsWithoutWritableSignal` | src/cantranslator.cpp:107-114 | with no writable signal of the name and a command of that name, that command's handler runs with the name and "value" |
| `JsonWrite.UnknownNameIsDropped` | src/cantranslator.cpp:107-117 | with no writable signal and no command of the name, nothing is sent and no handler runs |
| `JsonWrite.ReadOnlySignalsAreInert` | src/cantranslator.cpp:107-108 | every request is decided as if the read-only signals were absent from the catalogue |
| `JsonWrite.RawWritePushes` | src/cantranslator.cpp:51-64 | a raw write whose "data" is any string pushes one message: the id is "id" as `uint32_t` and the payload bytes are the `strtoull` value's bytes, most significant first |
| `JsonWrite.RawWritePayload` | src/cantranslator.cpp:51-64 | a raw write whose "data" is 16 hex digits pushes a message whose id is "id" as `uint32_t` and whose payload bytes are the bytes the digits spell, in order |
| `JsonWrite.ExampleDigits` | src/cantranslator.cpp:61 | "0102030405060708" spells the bytes 01 to 08 |
| `JsonWrite.RawWriteExample` | src/cantranslator.cpp:51-64 | `{"id": 291, "data": "0102030405060708"}` pushes id 291 with payload bytes 01 to 08 |
| `JsonWrite.ReceiveJsonWriteRequest` | src/cantranslator.cpp:120-143 | returns true exactly when the text parsed; pushes once exactly for a raw write and otherwise leaves the send queue alone, apart from the returned `SendSignal` or `RunCommand`, whose own pushes are not modelled |
| `CanTranslator.ReceiveWriteRequest` | src/cantranslator.cpp:145-152 | a transmitter build scans binary frames and returns true; any other build handles JSON and returns whether it parsed |
| `CanTranslator.Receive` | src/cantranslator.cpp:158-164 | nothing is decoded exactly when the queue is empty; the decoded message followed by the queue left is the old queue |
| `CanTranslator.ReceiveRoundsInOrder` | src/cantranslator.cpp:158-164 | one message per pass: after `n` passes the oldest `n` messages, or all of them, have been decoded in arrival order and the rest still wait |
| `CanTranslator.ReceiveCan` | src/cantranslator.cpp:158-164 | an empty receive queue is left unchanged; otherwise exactly its head is removed and returned for decoding |

## Left out

- `setup`, `loop`, `initializeAllCan` and `reset` (USB, serial and CAN driver set-up and polling) are I/O plumbing. `ReceiveRoundsInOrder` captures only the one `receiveCan` per bus per pass of `loop`.
- The JSON parser and `cJSON_Delete` are a foreign library. The parse result is a parameter: `None` for text that does not parse, otherwise a map from keys to items.
- cJSON looks keys up case-insensitively; the model's keys are matched exactly.
- cJSON's conversion of a number to `valueint` is not modelled: the item's integer is taken as given.
- `JsonWrite.StrToULongLongHex`: reads only a run of hex digits, saturating at `ULLONG_MAX`. It leaves out leading whitespace, a sign, a `0x` prefix and the `end` pointer.
- A "name" or "data" item that is not a string gives a null string to `lookupSignal` or `strtoull`. What those do with it is not visible, so the model stops at the outcome `NullString`.
- `decodeCanMessage`, `sendCanSignal` and the command handlers have no visible bodies. `ReceiveCan` returns the message it would hand to `decodeCanMessage`, and `JsonWriteRequest` returns the signal send or handler call as a `WriteAction`. The floating-point scaling of `sendCanSignal` is not modelled.
- `processCanWriteQueue` and `processListenerQueues` are not part of this model.
- `lookupSignal` and `lookupCommand` have no visible bodies. They are modelled as first-match searches by name.
- The storage of `QUEUE_PUSH` and `QUEUE_POP` is not visible. A queue is a sequence with a capacity.
- The implementation of `getBitField` (`bitfield.c`) is not part of this model. `GetBitField` is the contract the unit test fixes: most-significant-bit-first, byte-major numbering.
- Debug logging, including the 16-byte dump of a corrupted frame, is not modelled. `ScanStepReadsFirst64` and the guard `index + 15 < 64` keep that dump inside the buffer.
- The concurrency between interrupt-driven producers and the main loop is not modelled.
- Host byte order: the model assumes a little-endian host for the copies into `id` and `data`.
- `src/tests/platform/network.cpp` is a test stub that sets a flag and calls code that is not visible. It is not part of this model.
- `BinaryWrite.ReceiveBinaryWriteRequest`: models the corrected scan, which moves one byte past a corrupted frame. The loop as written never ends on such a frame; see Findings.
- `CanTranslator.ReceiveWriteRequest`: a transmitter build requires a buffer of at least 64 bytes, the fixed size the scanner indexes into. The host transport's buffer is not part of this model.

## Findings

| source | as written | input that shows it | evidently intended | confidence | as-written member | corrected member |
|---|---|---|---|---|---|---|
| src/cantranslator.cpp:79-87 | on a frame whose delimiters do not match, the loop logs it and `continue`s without changing `index`, so the next iteration sees the same frame and the loop never ends | a 64-byte buffer holding one valid frame at offset 0 followed by 49 zero bytes: the frame is pushed, then offset 15 is corrupted and not the sentinel | move the cursor past the corrupted data and go on scanning (the model moves one byte, so the scan can resynchronise on a later `{`) | not executed; the stall is proved for every buffer that reaches a corrupted frame | `BinaryWrite.PaddedFrameStallsAsWritten` | `BinaryWrite.ReceiveBinaryWriteRequest` |
