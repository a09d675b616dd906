# wifi_i2c — a Dafny model

This project models the logic of wifi_i2c, a bridge that lets a PC drive I2C
devices and an FPGA through an ESP32 over Wi-Fi/UDP. It models three
self-contained pieces:

- **The firmware's frame-set collector** (`CEngine`, module `Engine`). The
  first byte of a datagram is its packet type. Types 0–4 are the command
  packet and four frame-data packets. Each is copied into its own buffer and
  marked in a received-packet mask. When all five are marked, a "frame set"
  is complete: the mask resets and a counter goes up. Type 5 asks for an
  8-byte status reply. Any other type is echoed back as one byte. The engine
  is a record state plus a step function `OnIncomingPacket` that returns the
  new state and the optional reply datagram.
- **The firmware's FPGA register access** (`CFPGA`, module `Fpga`). Register
  reads and writes are short sequences of I2C bus operations. A register
  read leaves the sentinel -1 and skips its byte read when writing the
  register number fails; the other sequences never stop early. The I2C driver is an
  oracle that answers the n-th bus operation. Every operation issued is
  recorded in a trace.
- **The Python client** (`Wifi_I2C`, `Wifi_I2C_Ex`, `Listener`). This part
  covers:
  - the payload encoders (modules `Wire` and `Bytes`), together with the
    errors Python's `int.to_bytes` raises;
  - decoders that read the payloads back;
  - the listener's transaction-id match/clear rule (module `Listener`);
  - `send_message`, with its incrementing id, five attempts and reply
    checks, the exception object, and the register calls built on it
    (module `Client`).

What the wait of each of the five attempts returns is given as data, the
way the I2C driver is given as an oracle: `replies[k]` is what
`wait_for_reply` hands back in attempt k. `Client.RepliesFromListener`
connects this to the listener: when the datagrams that reach it during
attempt k are `windows[k]`, `replies[k]` is the first of them that carries
the message's id.

This firmware (main/engine.cpp, main/fpga.cpp) is a frame collector with no transaction-id handling. It
keeps no record of requests, and it detects no duplicates. The only
transaction-id logic is on the client side, so that is the only place it is
modelled.

## Model

| member | source | states |
|---|---|---|
| Bytes.FromToBE | python/wifi_i2c.py:256 | `int.from_bytes` of the n-byte big-endian encoding of x gives back x, for every 0 ≤ x < 256^n |
| Bytes.ToFromBE | python/wifi_i2c.py:244-256 | re-encoding a decoded byte string at its own width gives back the same bytes |
| Engine.CommandOfBytes | main/engine.h:11-21 | the command read from 8 bytes has exactly those 8 bytes as its memory image, field order as in `command_t` |
| Engine.PowerOn | main/engine.cpp:49-54 | the statically allocated state: four 1154-byte buffers, an empty mask and a zero counter |
| Engine.Init | main/engine.cpp:62-66 | after `init` no packet type is recorded; the counter and buffers are untouched |
| Engine.CompletesIff | main/engine.cpp:113-116 | or-ing in bit t yields 0x1F exactly when the mask held every other frame-set bit and nothing outside the set |
| Engine.Record | main/engine.cpp:112-120 | the mask update completes a set exactly when t was the only missing type, and then resets to 0; otherwise it sets bit t and keeps every other bit; it keeps the "inside 0x1F and not full" invariant |
| Engine.StatusReply | main/engine.cpp:128-148 | the status reply is 8 bytes: 0x05, version and revision truncated to a byte, then 0xFF or 0 per packet type 0–4, 0xFF exactly when that type is recorded |
| Engine.StatusRoundTrip | main/engine.cpp:14-24 | a client reading the status layout recovers the version byte, the revision byte and every mask bit |
| Engine.OnIncomingPacket | main/engine.cpp:74-121 | types 0–4 send no reply; type 5 sends the status reply and changes nothing; a larger type is echoed as one byte and changes nothing; a frame-set packet sets its bit and keeps the others, or completes the set (mask 0, counter +1); type 0 copies 8 bytes into the command, types 1–4 copy 1154 bytes into slot t−1, and no other buffer changes |
| Engine.RepeatedTypeIdempotent | main/engine.cpp:113-120 | receiving a frame-set type already recorded changes neither the mask nor the counter |
| Engine.RunKeepsMaskOk | main/engine.cpp:112-120 | over any sequence of packets the mask stays inside 0x1F and is never left equal to it |
| Engine.MaskOkAfterInit | main/engine.cpp:62-120 | starting from `init`, the mask is inside 0x1F and never 0x1F after any sequence of packets |
| Engine.RunReplyCount | main/engine.cpp:80-110 | a sequence of packets gets exactly one reply per status request or unknown type, and none for frame-set packets |
| Engine.FrameSetCompletes | main/engine.cpp:113-120 | receiving the missing frame-set packets, one of each type in any order, completes exactly one frame set: counter +1, mask 0 |
| Fpga.WriteReg | main/fpga.cpp:72-79 | one bus write to the device address with a 1-byte register number and 1 value byte; the result is that write's status |
| Fpga.ReadReg | main/fpga.cpp:91-107 | register-number write, then a byte read only if that write succeeded; success exactly when both succeed; the result is the byte read, else -1 |
| Fpga.Init | main/fpga.cpp:36-63 | stores the address, reads REV (0x01) then VER (0x00), both always attempted; true exactly when both reads succeed; a failed read leaves -1, not the 0 set before |
| Fpga.StatusShowsInit | main/fpga.cpp:43-48 | the status reply's version and revision bytes are the bytes `init` read, or 0xFF (the low byte of -1) where a read failed |
| Fpga.SendCommand | main/fpga.cpp:115-125 | exactly eight writes, to 0x05, 0x07, 0x08, 0x25, 0x26, 0x2A, 0x28, 0x29 in that order, each with the matching command field |
| Fpga.SendCommandIgnoresFailures | main/fpga.cpp:115-125 | the operations `send_command` issues do not depend on whether any write failed |
| Fpga.SendPacket | main/fpga.cpp:133-137 | always succeeds and issues no bus operation |
| Wire.ToBytes | python/wifi_i2c.py:410 | `x.to_bytes(n, 'big')` raises ValueError for a negative n and OverflowError for an x outside 0..256^n−1; otherwise it gives n bytes whose value is x |
| Wire.ValueBytes | python/wifi_i2c.py:408-414 | an int value becomes reg_width bytes, bytes and bytearray stay as they are, any other value raises TypeError |
| Wire.BuildOneRegisterString | python/wifi_i2c.py:406-430 | succeeds exactly when the width, register, value and value length fit; the result is width byte, register in `width` bytes, 2-byte length, value, so its length is 3 + width + len(value); a value that is not an int, bytes or bytearray raises TypeError, and an int with a negative reg_width raises ValueError |
| Wire.IntLengthField | python/wifi_i2c.py:409-418 | an int value is encoded as exactly reg_width bytes, so the entry is 3 + 2·reg_width bytes and its length field reads reg_width |
| Wire.BuildRegisterList | python/wifi_i2c.py:389-396 | a list encodes exactly when every entry does; an empty list is empty bytes |
| Wire.BuildRegisterData | python/wifi_i2c.py:384-399 | encodes exactly when every pair written encodes (the list's pairs, or the one register with the separate value), and a receiver decoding the result finds exactly those pairs, in order |
| Wire.PairRoundTrip | python/wifi_i2c.py:406-427 | one encoded (register, value) pair on its own reads back as that single pair |
| Wire.ToBytesIsToBE | python/wifi_i2c.py:410 | what `to_bytes` produces is the big-endian encoding of the number |
| Wire.DecodeEntryBytes | python/wifi_i2c.py:417-427 | one entry's encoding is read back whole, whatever bytes follow it |
| Wire.RegisterListRoundTrip | python/wifi_i2c.py:389-396 | the entries are self-delimiting: decoding the concatenation recovers every (register, value) pair in order |
| Wire.ReadRegPayload | python/wifi_i2c.py:241-253 | the read payload encodes exactly when width, register and length fit; it is 3 + width bytes starting with the width byte |
| Wire.ReadRegPayloadRoundTrip | python/wifi_i2c.py:243-253 | the read payload carries exactly the width, register and length asked for |
| Wire.I2cAddressPayload | python/wifi_i2c.py:207-213 | the address is one byte; an address outside 0..255 raises OverflowError |
| Wire.ClientPortPayload | python/wifi_i2c.py:299-305 | the port is two big-endian bytes; a port outside 0..65535 fails |
| Wire.RequestRoundTrip | python/wifi_i2c.py:321-334 | a request datagram (4-byte big-endian id, command byte, data) reads back as the same id, command and data |
| Wire.ReplyBytes | python/wifi_i2c.py:362-372 | the reply layout: echoed id in bytes 0–3, command at 4, error code at 5, data from 6 |
| Listener.Initial | python/wifi_i2c.py:446-450 | a new listener expects nothing and holds nothing |
| Listener.Expect | python/wifi_i2c.py:502-508 | `expect` clears the event and awaits the id, keeping the last stored message |
| Listener.TransId | python/wifi_i2c.py:540 | a message's id is a prefix of it, four bytes long or the whole of a shorter message |
| Listener.OnMessage | python/wifi_i2c.py:540-552 | a message whose first four bytes equal the awaited id is stored, the event set and the id cleared; any other message changes nothing |
| Listener.AcceptedOnce | python/wifi_i2c.py:543-552 | once a reply is taken, a second message, even with the same id, is ignored |
| Listener.WaitForReply | python/wifi_i2c.py:517-523 | a set event hands over the stored message; a clear event hands over nothing |
| Listener.Deliver | python/wifi_i2c.py:531-552 | the `run` loop over arriving datagrams: a listener that expects nothing ignores them all, and one whose event ends clear took none, so nothing changed |
| Listener.FirstMatch | python/wifi_i2c.py:534-552 | the reference answer: whatever it finds carries the id |
| Listener.FirstMatchIsFirst | python/wifi_i2c.py:534-552 | `FirstMatch` finds nothing exactly when no message carries the id; what it finds is a message carrying the id with none before it |
| Listener.ReplyIsFirstMatch | python/wifi_i2c.py:531-552 | after `expect(id)`, the reply handed over is the first arriving message that carries the id; with no such message the listener is unchanged |
| Client.TimeoutEx | python/wifi_i2c.py:91-95 | the timeout exception sets `error` to 99 and leaves `error_code` unset |
| Client.NewWifiI2cEx | python/wifi_i2c.py:89-125 | from a reply: IndexError below 6 bytes; command = byte 4, error_code = byte 5, register = byte 6 only when longer than 6; the text chosen by the code (0, 1, 2, 3, 255, other); codes 1–3 without a register raise TypeError; trans_id is bytes 0–2 |
| Client.TransIdTruncated | python/wifi_i2c.py:97 | for every reply, the recorded trans_id has 3 bytes and differs from the 4-byte id of the request |
| Client.TransIdTruncatedExample | python/wifi_i2c.py:97 | a concrete reply to id 0x01020304 records trans_id 01 02 03 |
| Client.NewWifiI2cExCorrected | python/wifi_i2c.py:89-125 | the same fields and errors, with trans_id the reply's 4-byte id |
| Client.CorrectedTransIdIsRequestId | python/wifi_i2c.py:97 | with the correction, the exception records exactly the id of the request it answers |
| Client.HandleReply | python/wifi_i2c.py:354-372 | no (or an empty) reply is the timeout; a reply under 6 bytes is an IndexError; a nonzero error byte raises exactly the `Wifi_I2C_Ex(reply)` of the as-written constructor; a reply with a zero error byte returns exactly the data after the 6-byte header, None when there is none |
| Client.HandleSuccessReply | python/wifi_i2c.py:358-372 | a success reply yields its data, or None when it carries none |
| Client.HandleErrorReply | python/wifi_i2c.py:97-99 | an error reply raises an exception carrying the first three bytes of the echoed id, the command and the code; it is a TypeError exactly when the code names a register the reply lacks |
| Client.HandleReplyCorrected | python/wifi_i2c.py:354-372 | the same reply checks with the corrected constructor: an error reply raises exactly `NewWifiI2cExCorrected(reply)` |
| Client.CorrectionOnlyChangesTransId | python/wifi_i2c.py:97 | the correction changes only trans_id: the same replies succeed with the same data or raise the same Python errors, and the exceptions agree in every other field |
| Client.HandleErrorReplyCorrected | python/wifi_i2c.py:97 | with the correction, an error reply's exception records exactly the request's 4-byte id |
| Client.NewClient | python/wifi_i2c.py:137-164 | a new client starts at transaction id 0 |
| Client.DataBytes | python/wifi_i2c.py:328-334 | falsy data adds nothing; bytes and bytearray add their bytes; other truthy data raises TypeError |
| Client.Message | python/wifi_i2c.py:318-334 | the datagram is the 4-byte big-endian id, the command byte and the data; an id beyond 32 bits raises OverflowError |
| Client.ReplyIn | python/wifi_i2c.py:517-552 | an attempt's reply is truthy exactly when it is present, and a present reply carries the awaited id |
| Client.ListenerGivesReplyIn | python/wifi_i2c.py:342-348 | after `expect(id)`, whatever the listener held before, `wait_for_reply` returns the first datagram of the attempt that carries the id |
| Client.AttemptReplies | python/wifi_i2c.py:339-348 | five replies; for every earlier listener state, reply k is what `wait_for_reply` returns after `expect(id)` and attempt k's datagrams |
| Client.Attempts | python/wifi_i2c.py:339-352 | between 1 and 5 sends; the loop stops at the first truthy reply or after the fifth attempt, every earlier reply was falsy, and the last reply is the one kept |
| Client.SendMessage | python/wifi_i2c.py:316-372 | the transaction id goes up by exactly 1, even when building fails; a build error sends nothing; otherwise 1 to 5 sends of identical bytes, stopping at the first truthy reply or after five, and the last reply decides the result |
| Client.RepliesFromListener | python/wifi_i2c.py:339-372 | with the listener in the loop: no earlier attempt saw a datagram carrying the id; fewer than five sends means the last attempt saw one; the first such datagram of the last attempt decides the result |
| Client.SentRequestsDecode | python/wifi_i2c.py:321-352 | every datagram of a message, first try or retry, reads on the server as the same id, command and data |
| Client.NoReplyTimesOut | python/wifi_i2c.py:339-355 | with no reply in any attempt, the message is sent five times and then the timeout is raised |
| Client.PromptSuccess | python/wifi_i2c.py:339-372 | a success reply to the first attempt means one send and the reply's data returned |
| Client.WriteRegCall | python/wifi_i2c.py:226-232 | an unencodable write raises before anything is sent and leaves the client as it was; an encodable one is exactly `send_message` with the write command and the built payload, so the id goes up by one and one to five datagrams go out |
| Client.WriteRegDelivers | python/wifi_i2c.py:226-232 | every datagram of a write, with a list or one register, carries, as the server reads it, the new id, the write command and exactly the pairs written, in order |
| Client.ReadRegCall | python/wifi_i2c.py:241-256 | an unencodable read raises before anything is sent; otherwise it sends what `send_message` sends and returns the big-endian value of the reply data from whichever attempt answered; a success reply without data is a TypeError, and `send_message`'s exceptions pass through |
| Client.ReadRegReturnsValue | python/wifi_i2c.py:241-256 | a read whose first attempt is answered with the n-byte encoding of x returns x after one send |
| Client.SetI2cAddressCall | python/wifi_i2c.py:207-213 | an address outside a byte raises OverflowError with nothing sent; otherwise the call is exactly `send_message` with the one address byte: the id goes up by one, one to five datagrams go out, each carrying exactly that address byte, and the result is `send_message`'s |
| Client.SetClientPortCall | python/wifi_i2c.py:299-305 | a port outside two bytes raises OverflowError with nothing sent; otherwise the call is exactly `send_message` with the two port bytes: the id goes up by one, one to five datagrams go out, each payload reads back as the port, and the result is `send_message`'s |

## Left out

- `main/udp_server.cpp` (the socket task, the bind/recvfrom loop, FreeRTOS task start and stop) is not part of this model. It is network I/O and RTOS plumbing. Two facts about it: `reply()` always answers to port 1182 (`SERVER_PORT`, main/udp_server.cpp:26), and the port that `set_client_port` stores (main/udp_server.h:23) is never read. So the firmware ignores the client's `set_client_port` request.
- The I2C driver is not part of this model. It is the oracle `Fpga.Oracle`.
- `read_reg` with a null result pointer (main/fpga.cpp:96, 103) is not modelled. Its only callers, in `CFPGA::init` (main/fpga.cpp:47-48), pass a pointer.
- The expected-version checks in `CFPGA::init` (main/fpga.cpp:51-59), `printf` and `ESP_LOG` output, and the "Full set of frame received" line only print. The counter is modelled as state.
- Engine.OnIncomingPacket: `frame_set_count` is an unbounded natural. The C `int` would overflow only after about 2^31 frame sets.
- Engine.OnIncomingPacket: the copy is modelled only for packets at least as long as what `memcpy` copies. The firmware never compares the copy size with the received length (main/engine.cpp:74-100). The requirement `Engine.Acceptable` makes that demand on the sender explicit; a shorter packet would read past the datagram.
- The received-packet mask is an 8-bit value, not the C `int`. Only `1 << t` for t in 0..4 is ever or-ed into it, so eight bits hold every value it can take.
- `Wifi_I2C.start` and socket creation (python/wifi_i2c.py:175-200) are network setup. `sock.sendto` appears only as the list of datagrams sent.
- `get_firmware_rev` and `get_rssi` (python/wifi_i2c.py:264-283) are not modelled separately. Each is `send_message` with no data followed by `int.from_bytes`, which is signed for `get_rssi`. `CEngine::on_incoming_packet` (main/engine.cpp:80-110) answers neither command as a request; it echoes any type byte above 5.
- Listener threading, `threading.Event` timeouts and the port-binding loop (python/wifi_i2c.py:452-496, 517-523) are concurrency and sockets. Timing appears only as the split of arriving datagrams into per-attempt windows.
- Client.NewWifiI2cEx: the message strings are abstracted as the tagged `ExText` (the case and the number it formats), not as text. The `error` attribute, which Python leaves unset for reply-built exceptions, is `None` here.
- `python/demo.py`, `python/test.py` and `python/main.py` are driver scripts doing live network I/O. `main/history.h` holds only a version string and notes.

## Findings

| source | as written | input that shows it | evidently intended | confidence | as-written member | corrected member |
|---|---|---|---|---|---|---|
| python/wifi_i2c.py:97 | `trans_id = message[0:3]` keeps only 3 of the 4 transaction-id bytes | an error reply to transaction id 0x01020304 (write command, code 2, register 0x10) records trans_id 01 02 03 | `message[0:4]`, the 4-byte id that `Listener.run` compares (python/wifi_i2c.py:540) | medium, not executed | Client.NewWifiI2cEx | Client.NewWifiI2cExCorrected |

`Client.TransIdTruncated` and `Client.TransIdTruncatedExample` exhibit the discrepancy for the as-written constructor. `Client.CorrectedTransIdIsRequestId` proves that the corrected constructor records the request's id. `Client.HandleReply`, and so `Client.SendMessage`, raise the as-written exception, as the program does. `Client.HandleReplyCorrected` is the reply handling with the corrected constructor; `Client.CorrectionOnlyChangesTransId` proves that it differs from `Client.HandleReply` only in the recorded trans_id, and `Client.HandleErrorReplyCorrected` that it records the request's id.
