/**
 The firmware's packet engine: it collects one command packet and four
 frame-data packets (a "frame set"), answers status requests, and echoes the
 type byte of any packet it does not know.

 The engine is a record state plus a step function that returns the new state
 and the reply datagram, if any.
 */
module Engine {
  import opened Bytes

  /** Packet types: the first byte of every datagram the engine receives. */
  const CMD_HEADER: byte := 0x00
  const PCB0_HEADER: byte := 0x01
  const PCB1_HEADER: byte := 0x02
  const PCB2_HEADER: byte := 0x03
  const PCB3_HEADER: byte := 0x04
  const STAT_HEADER: byte := 0x05

  /** The received-packet mask. The firmware keeps it in a C `int`, but only
      `1 << t` for a packet type t of 0 to 4 is ever or-ed into it, so eight
      bits hold every value it can take. */
  type Mask = bv8

  /** One bit per packet type of a full frame set (types 0 to 4). */
  const FRAME_SET: Mask := 0x1F

  /** Size of one FPGA RAM frame; a data packet carries two frames. */
  const RAM_FRAME_SIZE: nat := 577
  const DATA_PACKET_SIZE: nat := 2 * RAM_FRAME_SIZE

  /** `sizeof(command_t)` and `sizeof(status_reply_t)`: eight one-byte fields each. */
  const COMMAND_SIZE: nat := 8
  const STATUS_SIZE: nat := 8

  /** The command packet, field by field in the order of its memory layout. */
  datatype Command = Command(
    txEn: byte, prfSel: byte, clkSel: byte, ptSel: byte,
    seqLoopCnt: byte, seqSel: byte, txDurMsb: byte, txDurLsb: byte)

  /** The memory image of a command packet. */
  function CommandBytes(c: Command): (b: seq<byte>)
    ensures |b| == COMMAND_SIZE
    ensures b[0] == c.txEn && b[7] == c.txDurLsb
  {
    [c.txEn, c.prfSel, c.clkSel, c.ptSel, c.seqLoopCnt, c.seqSel, c.txDurMsb, c.txDurLsb]
  }

  /** The command packet a `memcpy` of eight bytes produces. */
  function CommandOfBytes(b: seq<byte>): (c: Command)
    requires |b| == COMMAND_SIZE
    ensures CommandBytes(c) == b
  {
    Command(b[0], b[1], b[2], b[3], b[4], b[5], b[6], b[7])
  }

  /** The engine's memory: the received-packet mask, the frame-set counter and the packet buffers. */
  datatype EngineState = EngineState(
    rcvdFlags: Mask,
    frameSetCount: nat,
    command: Command,
    dataPackets: seq<seq<byte>>)

  /** Four data-packet buffers, each exactly one data packet long. */
  predicate WellFormed(s: EngineState) {
    && |s.dataPackets| == 4
    && forall i | 0 <= i < 4 :: |s.dataPackets[i]| == DATA_PACKET_SIZE
  }

  /** The single mask bit of packet type k (`1 << k`). */
  function Bit(k: nat): Mask
    requires k < 5
  {
    [0x01, 0x02, 0x04, 0x08, 0x10][k]
  }

  /** Whether the mask records a packet of type k. */
  predicate Received(m: Mask, k: nat) {
    k < 5 && m & Bit(k) != 0
  }

  /** The mask holds only frame-set bits and is not a full set. */
  predicate MaskOk(m: Mask) {
    m & !FRAME_SET == 0 && m != FRAME_SET
  }

  /** Masks a and b agree on every frame-set bit other than t. */
  predicate SameOtherBits(a: Mask, b: Mask, t: nat) {
    forall k | 0 <= k < 5 && k != t :: Received(a, k) == Received(b, k)
  }

  /** Recording packet type t in mask m completes a frame set: m holds
      nothing outside the frame set and every frame-set bit other than t. */
  predicate CompletesSet(m: Mask, t: nat) {
    m & !FRAME_SET == 0 && forall k | 0 <= k < 5 && k != t :: Received(m, k)
  }

  lemma BitOutsideHigh(k: nat)
    requires k < 5
    ensures Bit(k) & !FRAME_SET == 0
  {
  }

  lemma SetBit(m: Mask, t: nat, k: nat)
    requires t < 5 && k < 5
    ensures Received(m | Bit(t), k) <==> (k == t || Received(m, k))
  {
    assert Bit(0) == 1 && Bit(1) == 2 && Bit(2) == 4 && Bit(3) == 8 && Bit(4) == 16;
  }

  lemma SetBitKeepsHigh(m: Mask, t: nat)
    requires t < 5
    ensures (m | Bit(t)) & !FRAME_SET == m & !FRAME_SET
  {
    BitOutsideHigh(t);
  }

  lemma SetBitOthers(m: Mask, t: nat)
    requires t < 5
    ensures Received(m | Bit(t), t)
    ensures SameOtherBits(m | Bit(t), m, t)
  {
    forall k | 0 <= k < 5
      ensures Received(m | Bit(t), k) == (k == t || Received(m, k))
    {
      SetBit(m, t, k);
    }
  }

  /** A mask is the full frame set exactly when it holds every frame-set bit and nothing else. */
  lemma FullMask(n: Mask)
    ensures n == FRAME_SET <==> n & !FRAME_SET == 0 && forall k | 0 <= k < 5 :: Received(n, k)
  {
    assert Bit(0) == 1 && Bit(1) == 2 && Bit(2) == 4 && Bit(3) == 8 && Bit(4) == 16;
    assert (forall k | 0 <= k < 5 :: Received(n, k)) <==>
      Received(n, 0) && Received(n, 1) && Received(n, 2) && Received(n, 3) && Received(n, 4);
  }

  /** `m | (1 << t) == FRAME_SET` is the same as "t was the only frame-set packet missing". */
  lemma CompletesIff(m: Mask, t: nat)
    requires t < 5
    ensures (m | Bit(t) == FRAME_SET) <==> CompletesSet(m, t)
  {
    var n := m | Bit(t);
    forall k | 0 <= k < 5
      ensures Received(n, k) == (k == t || Received(m, k))
    {
      SetBit(m, t, k);
    }
    SetBitKeepsHigh(m, t);
    FullMask(n);
  }

  datatype Recorded = Recorded(flags: Mask, completed: bool)

  /** The mask update of `on_incoming_packet` for a frame-set packet of type t:
      or in bit t, and start over when that completes the set. */
  function Record(m: Mask, t: nat): (r: Recorded)
    requires t < 5
    ensures r.completed <==> CompletesSet(m, t)
    ensures r.completed ==> r.flags == 0
    ensures !r.completed ==> Received(r.flags, t) && SameOtherBits(r.flags, m, t)
    ensures !r.completed ==> r.flags & !FRAME_SET == m & !FRAME_SET
    ensures MaskOk(m) ==> MaskOk(r.flags)
  {
    var n := m | Bit(t);
    CompletesIff(m, t);
    SetBitKeepsHigh(m, t);
    SetBitOthers(m, t);
    if n == FRAME_SET then Recorded(0, true) else Recorded(n, false)
  }

  /** State of the statically allocated engine before anything runs: all zero. */
  function PowerOn(): (s: EngineState)
    ensures WellFormed(s) && s.rcvdFlags == 0 && s.frameSetCount == 0
  {
    var zeros := seq(DATA_PACKET_SIZE, _ => 0);
    EngineState(0, 0, Command(0, 0, 0, 0, 0, 0, 0, 0), [zeros, zeros, zeros, zeros])
  }

  /** `init`: forget every received packet; counter and buffers keep their contents. */
  function Init(s: EngineState): (r: EngineState)
    ensures MaskOk(r.rcvdFlags)
    ensures forall k :: !Received(r.rcvdFlags, k)
    ensures r.frameSetCount == s.frameSetCount && r.command == s.command && r.dataPackets == s.dataPackets
  {
    s.(rcvdFlags := 0)
  }

  /** 0xFF when the mask records packet type k, else 0. */
  function Flag(m: Mask, k: nat): byte
    requires k < 5
  {
    if m & Bit(k) != 0 then 0xFF else 0
  }

  /** `send_status`: the 8-byte status reply. Version and revision are C ints
      stored into `uint8_t` fields, so only their low byte survives. */
  function StatusReply(flags: Mask, version: int, revision: int): (r: seq<byte>)
    ensures |r| == STATUS_SIZE
    ensures r[0] == STAT_HEADER
    ensures r[1] == version % 256 && r[2] == revision % 256
    ensures forall k | 0 <= k < 5 ::
      && (r[3 + k] == 0xFF <==> Received(flags, k))
      && (r[3 + k] == 0 <==> !Received(flags, k))
  {
    [STAT_HEADER, version % 256, revision % 256,
     Flag(flags, CMD_HEADER), Flag(flags, PCB0_HEADER), Flag(flags, PCB1_HEADER),
     Flag(flags, PCB2_HEADER), Flag(flags, PCB3_HEADER)]
  }

  /** What a status reply says, read back by a client. */
  datatype Status = Status(version: byte, revision: byte, received: seq<bool>)

  /** A client-side reading of a status reply; None unless it has the status shape. */
  function DecodeStatus(r: seq<byte>): (st: Option<Status>)
    ensures st.Some? ==> |r| == STATUS_SIZE && r[0] == STAT_HEADER && |st.value.received| == 5
  {
    if |r| == STATUS_SIZE && r[0] == STAT_HEADER
       && forall i | 3 <= i < STATUS_SIZE :: r[i] == 0 || r[i] == 0xFF
    then Some(Status(r[1], r[2], seq(5, i requires 0 <= i < 5 => r[3 + i] == 0xFF)))
    else None
  }

  /** The status reply is decodable and carries exactly the version, revision and mask bits. */
  lemma StatusRoundTrip(flags: Mask, version: int, revision: int)
    ensures var st := DecodeStatus(StatusReply(flags, version, revision));
      && st.Some?
      && st.value.version == version % 256
      && st.value.revision == revision % 256
      && forall k | 0 <= k < 5 :: st.value.received[k] == Received(flags, k)
  {
  }

  /** Bytes `on_incoming_packet` copies out of the packet after its type byte. */
  function CopySize(t: byte): nat {
    if t == CMD_HEADER then COMMAND_SIZE
    else if t <= PCB3_HEADER then DATA_PACKET_SIZE
    else 0
  }

  /** A packet the engine may be handed: its type byte is present and the
      copy that type triggers stays inside the packet. The firmware never
      compares the copy size with the received length, so this is a demand
      on the sender, not a check the engine makes. */
  predicate Acceptable(packet: seq<byte>) {
    |packet| >= 1 && |packet| >= 1 + CopySize(packet[0])
  }

  datatype StepResult = StepResult(state: EngineState, reply: Option<seq<byte>>)

  /** `on_incoming_packet`, given the FPGA version and revision the status reply reports. */
  function OnIncomingPacket(s: EngineState, packet: seq<byte>, fpgaVersion: int, fpgaRevision: int): (r: StepResult)
    requires WellFormed(s)
    requires Acceptable(packet)
    ensures WellFormed(r.state)
    // replies: only status requests and unknown types are answered
    ensures r.reply.None? <==> packet[0] <= PCB3_HEADER
    ensures packet[0] == STAT_HEADER ==>
      r.state == s && r.reply == Some(StatusReply(s.rcvdFlags, fpgaVersion, fpgaRevision))
    ensures packet[0] > STAT_HEADER ==> r.state == s && r.reply == Some([packet[0]])
    // the mask and the frame-set counter
    ensures MaskOk(s.rcvdFlags) ==> MaskOk(r.state.rcvdFlags)
    ensures packet[0] <= PCB3_HEADER && CompletesSet(s.rcvdFlags, packet[0]) ==>
      r.state.rcvdFlags == 0 && r.state.frameSetCount == s.frameSetCount + 1
    ensures packet[0] <= PCB3_HEADER && !CompletesSet(s.rcvdFlags, packet[0]) ==>
      && r.state.frameSetCount == s.frameSetCount
      && Received(r.state.rcvdFlags, packet[0])
      && SameOtherBits(r.state.rcvdFlags, s.rcvdFlags, packet[0])
      && r.state.rcvdFlags & !FRAME_SET == s.rcvdFlags & !FRAME_SET
    // the packet buffers
    ensures packet[0] == CMD_HEADER ==>
      CommandBytes(r.state.command) == packet[1..1 + COMMAND_SIZE] && r.state.dataPackets == s.dataPackets
    ensures PCB0_HEADER <= packet[0] <= PCB3_HEADER ==>
      && r.state.command == s.command
      && r.state.dataPackets[packet[0] - 1] == packet[1..1 + DATA_PACKET_SIZE]
      && forall i | 0 <= i < 4 && i != packet[0] - 1 :: r.state.dataPackets[i] == s.dataPackets[i]
  {
    var t := packet[0];
    if t == STAT_HEADER then
      StepResult(s, Some(StatusReply(s.rcvdFlags, fpgaVersion, fpgaRevision)))
    else if t > STAT_HEADER then
      StepResult(s, Some([t]))
    else
      var stored :=
        if t == CMD_HEADER then s.(command := CommandOfBytes(packet[1..1 + COMMAND_SIZE]))
        else s.(dataPackets := s.dataPackets[t - 1 := packet[1..1 + DATA_PACKET_SIZE]]);
      var rec := Record(s.rcvdFlags, t);
      StepResult(
        stored.(rcvdFlags := rec.flags,
                frameSetCount := if rec.completed then s.frameSetCount + 1 else s.frameSetCount),
        None)
  }

  /** Two masks with the same bits outside the frame set and the same frame-set bits are equal. */
  lemma MaskExt(a: Mask, b: Mask)
    requires a & !FRAME_SET == b & !FRAME_SET
    requires forall k | 0 <= k < 5 :: Received(a, k) == Received(b, k)
    ensures a == b
  {
    assert Bit(0) == 1 && Bit(1) == 2 && Bit(2) == 4 && Bit(3) == 8 && Bit(4) == 16;
    assert Received(a, 0) == Received(b, 0) && Received(a, 1) == Received(b, 1)
      && Received(a, 2) == Received(b, 2) && Received(a, 3) == Received(b, 3)
      && Received(a, 4) == Received(b, 4);
  }

  /** Receiving a frame-set packet of a type already recorded changes neither
      the mask nor the counter. */
  lemma RepeatedTypeIdempotent(s: EngineState, packet: seq<byte>, fpgaVersion: int, fpgaRevision: int)
    requires WellFormed(s) && Acceptable(packet) && MaskOk(s.rcvdFlags)
    requires packet[0] <= PCB3_HEADER && Received(s.rcvdFlags, packet[0])
    ensures OnIncomingPacket(s, packet, fpgaVersion, fpgaRevision).state.rcvdFlags == s.rcvdFlags
    ensures OnIncomingPacket(s, packet, fpgaVersion, fpgaRevision).state.frameSetCount == s.frameSetCount
  {
    var t := packet[0];
    var r := OnIncomingPacket(s, packet, fpgaVersion, fpgaRevision).state;
    if CompletesSet(s.rcvdFlags, t) {
      forall k | 0 <= k < 5 ensures Received(s.rcvdFlags, k) {
        if k != t {
          assert Received(s.rcvdFlags, k);
        }
      }
      FullMask(s.rcvdFlags);
      assert false;
    }
    MaskExt(r.rcvdFlags, s.rcvdFlags);
  }

  /** The replies and the final state of feeding packets to the engine one after another. */
  datatype RunResult = RunResult(state: EngineState, replies: seq<seq<byte>>)

  predicate AllAcceptable(packets: seq<seq<byte>>) {
    forall i | 0 <= i < |packets| :: Acceptable(packets[i])
  }

  function Run(s: EngineState, packets: seq<seq<byte>>, fpgaVersion: int, fpgaRevision: int): (r: RunResult)
    requires WellFormed(s) && AllAcceptable(packets)
    ensures WellFormed(r.state)
    decreases |packets|
  {
    if |packets| == 0 then RunResult(s, [])
    else
      var step := OnIncomingPacket(s, packets[0], fpgaVersion, fpgaRevision);
      var rest := Run(step.state, packets[1..], fpgaVersion, fpgaRevision);
      RunResult(rest.state, (if step.reply.Some? then [step.reply.value] else []) + rest.replies)
  }

  /** Whatever arrives, the mask stays inside the frame set and is never left full. */
  lemma {:induction false} RunKeepsMaskOk(s: EngineState, packets: seq<seq<byte>>, fpgaVersion: int, fpgaRevision: int)
    requires WellFormed(s) && AllAcceptable(packets) && MaskOk(s.rcvdFlags)
    ensures MaskOk(Run(s, packets, fpgaVersion, fpgaRevision).state.rcvdFlags)
    decreases |packets|
  {
    if |packets| > 0 {
      var step := OnIncomingPacket(s, packets[0], fpgaVersion, fpgaRevision);
      RunKeepsMaskOk(step.state, packets[1..], fpgaVersion, fpgaRevision);
    }
  }

  /** After `init`, no sequence of packets leaves the mask outside 0x1F or equal to it. */
  lemma MaskOkAfterInit(s: EngineState, packets: seq<seq<byte>>, fpgaVersion: int, fpgaRevision: int)
    requires WellFormed(s) && AllAcceptable(packets)
    ensures MaskOk(Run(Init(s), packets, fpgaVersion, fpgaRevision).state.rcvdFlags)
  {
    RunKeepsMaskOk(Init(s), packets, fpgaVersion, fpgaRevision);
  }

  /** Number of packets the engine answers: status requests and unknown types. */
  function Answered(packets: seq<seq<byte>>): nat
    requires AllAcceptable(packets)
  {
    if |packets| == 0 then 0
    else (if packets[0][0] > PCB3_HEADER then 1 else 0) + Answered(packets[1..])
  }

  /** One reply per answered packet, none for frame-set packets. */
  lemma {:induction false} RunReplyCount(s: EngineState, packets: seq<seq<byte>>, fpgaVersion: int, fpgaRevision: int)
    requires WellFormed(s) && AllAcceptable(packets)
    ensures |Run(s, packets, fpgaVersion, fpgaRevision).replies| == Answered(packets)
    decreases |packets|
  {
    if |packets| > 0 {
      var step := OnIncomingPacket(s, packets[0], fpgaVersion, fpgaRevision);
      RunReplyCount(step.state, packets[1..], fpgaVersion, fpgaRevision);
    }
  }

  /** The mask records exactly the types in `held`. */
  predicate Holds(m: Mask, held: set<nat>) {
    m & !FRAME_SET == 0 && forall k | 0 <= k < 5 :: Received(m, k) <==> k in held
  }

  /** The packet types of `packets` are distinct frame-set types and are
      exactly the frame-set types missing from `held`. */
  predicate CompletesFrom(packets: seq<seq<byte>>, held: set<nat>)
    requires AllAcceptable(packets)
  {
    && (forall i | 0 <= i < |packets| :: packets[i][0] <= PCB3_HEADER && packets[i][0] !in held)
    && (forall i, j | 0 <= i < j < |packets| :: packets[i][0] != packets[j][0])
    && (forall k | 0 <= k < 5 && k !in held :: exists i | 0 <= i < |packets| :: packets[i][0] == k)
  }

  /** Recording a type the mask lacks, without completing the set, adds just that type. */
  lemma RecordHolds(m: Mask, held: set<nat>, t: nat)
    requires t < 5 && Holds(m, held) && !CompletesSet(m, t)
    ensures Holds(Record(m, t).flags, held + {t})
  {
  }

  /** After the first of the missing packets, the rest are the ones still missing. */
  lemma {:induction false} CompletesFromRest(packets: seq<seq<byte>>, held: set<nat>)
    requires AllAcceptable(packets) && |packets| > 1 && CompletesFrom(packets, held)
    ensures AllAcceptable(packets[1..])
    ensures CompletesFrom(packets[1..], held + {packets[0][0] as nat})
  {
    var t: nat := packets[0][0];
    var rest := packets[1..];
    assert forall i | 0 <= i < |rest| :: rest[i] == packets[i + 1];
    forall k | 0 <= k < 5 && k !in held + {t}
      ensures exists i | 0 <= i < |rest| :: rest[i][0] == k
    {
      var i :| 0 <= i < |packets| && packets[i][0] == k;
      assert rest[i - 1][0] == k;
    }
  }

  /** Receiving the missing frame-set packets, in any order, completes exactly
      one frame set: the counter goes up by one and the mask returns to 0. */
  lemma {:induction false} FrameSetCompletes(
    s: EngineState, held: set<nat>, packets: seq<seq<byte>>, fpgaVersion: int, fpgaRevision: int)
    requires WellFormed(s) && AllAcceptable(packets) && |packets| > 0
    requires Holds(s.rcvdFlags, held) && CompletesFrom(packets, held)
    ensures Run(s, packets, fpgaVersion, fpgaRevision).state.frameSetCount == s.frameSetCount + 1
    ensures Run(s, packets, fpgaVersion, fpgaRevision).state.rcvdFlags == 0
    decreases |packets|
  {
    var t := packets[0][0];
    var step := OnIncomingPacket(s, packets[0], fpgaVersion, fpgaRevision);
    if |packets| == 1 {
      forall k | 0 <= k < 5 && k != t ensures Received(s.rcvdFlags, k) {
        assert k in held;
      }
      assert CompletesSet(s.rcvdFlags, t);
    } else {
      assert !CompletesSet(s.rcvdFlags, t) by {
        assert !Received(s.rcvdFlags, packets[1][0]);
      }
      RecordHolds(s.rcvdFlags, held, t);
      CompletesFromRest(packets, held);
      FrameSetCompletes(step.state, held + {t}, packets[1..], fpgaVersion, fpgaRevision);
    }
  }
}
