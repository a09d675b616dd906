/**
 The firmware's FPGA driver: register reads and writes as short sequences of
 I2C bus operations. The I2C driver itself is not part of this model; it is
 an oracle that answers the n-th bus operation, and every operation issued is
 appended to a trace.
 */
module Fpga {
  import opened Bytes
  import Engine

  /** FPGA register addresses. */
  const REG_VER: int := 0x00
  const REG_REV: int := 0x01
  const REG_EN: int := 0x04
  const REG_TX_START: int := 0x05
  const REG_TX_PT_DUR_MSB: int := 0x07
  const REG_TX_PT_DUR_LSB: int := 0x08
  const REG_TX_PT_SEL: int := 0x25
  const REG_TX_SEQ_LOOP_CNT: int := 0x26
  const REG_TX_SEQ_SEL: int := 0x28
  const REG_CLK_SEL: int := 0x29
  const REG_PRF: int := 0x2A
  const REG_RAM: int := 0x80

  /** The value `read_reg` leaves in its result when the read fails. */
  const READ_FAILED: int := -1

  /** One call into the I2C driver. */
  datatype BusOp =
    /** write a register number of `regWidth` bytes followed by `length` bytes of `value` */
    | WriteValue(address: int, register: int, regWidth: int, value: int, length: int)
    /** write only a register number of `regWidth` bytes, selecting it for a following read */
    | WriteRegister(address: int, register: int, regWidth: int)
    /** read `length` bytes from the device */
    | Read(address: int, length: int)

  /** The driver's answer: success, and for a read the byte it delivered. */
  datatype BusReply = BusReply(ok: bool, data: byte)

  /** The I2C driver: its answer to the n-th bus operation of the run. */
  type Oracle = nat -> BusReply

  /** A bus interaction: the trace after it and the value it produced. */
  datatype Access<T> = Access(trace: seq<BusOp>, value: T)

  datatype FpgaState = FpgaState(i2cAddress: int, version: int, revision: int)

  /** `write_reg`: one bus write of a one-byte register number and one value byte. */
  function WriteReg(f: FpgaState, trace: seq<BusOp>, oracle: Oracle, register: int, value: int): (r: Access<bool>)
    ensures r.trace == trace + [WriteValue(f.i2cAddress, register, 1, value, 1)]
    ensures r.value == oracle(|trace|).ok
  {
    Access(trace + [WriteValue(f.i2cAddress, register, 1, value, 1)], oracle(|trace|).ok)
  }

  /** The bus operations of one register read: the register-number write,
      then the byte read only if that write succeeded. */
  function ReadOps(address: int, register: int, selected: bool): seq<BusOp> {
    [WriteRegister(address, register, 1)] + (if selected then [Read(address, 1)] else [])
  }

  /** A register read issued at trace position n succeeds: both of its bus operations do. */
  predicate ReadSucceeds(oracle: Oracle, n: nat) {
    oracle(n).ok && oracle(n + 1).ok
  }

  /** `read_reg` with a non-null result pointer. The result is first set to -1
      and is overwritten only by a byte that was read successfully. */
  function ReadReg(f: FpgaState, trace: seq<BusOp>, oracle: Oracle, register: int): (r: Access<(bool, int)>)
    ensures r.trace == trace + ReadOps(f.i2cAddress, register, oracle(|trace|).ok)
    ensures r.value.0 <==> ReadSucceeds(oracle, |trace|)
    ensures r.value.0 ==> r.value.1 == oracle(|trace| + 1).data
    ensures !r.value.0 ==> r.value.1 == READ_FAILED
    ensures r.value.1 == READ_FAILED || 0 <= r.value.1 < 256
  {
    var result := READ_FAILED;
    var select := oracle(|trace|);
    var t1 := trace + [WriteRegister(f.i2cAddress, register, 1)];
    if !select.ok then Access(t1, (false, result))
    else
      var data := oracle(|t1|);
      var t2 := t1 + [Read(f.i2cAddress, 1)];
      if data.ok then Access(t2, (true, data.data)) else Access(t2, (false, result))
  }

  datatype InitResult = InitResult(fpga: FpgaState, trace: seq<BusOp>, ok: bool)

  /** `init`: remember the I2C address, then read REV and VER. Both reads are
      always attempted; the result says whether both succeeded. */
  function Init(i2cAddress: int, trace: seq<BusOp>, oracle: Oracle): (r: InitResult)
    ensures r.fpga.i2cAddress == i2cAddress
    ensures var n := |trace| + |ReadOps(i2cAddress, REG_REV, oracle(|trace|).ok)|;
      && r.trace == trace + ReadOps(i2cAddress, REG_REV, oracle(|trace|).ok)
                          + ReadOps(i2cAddress, REG_VER, oracle(n).ok)
      && r.ok == (ReadSucceeds(oracle, |trace|) && ReadSucceeds(oracle, n))
      && r.fpga.revision == (if ReadSucceeds(oracle, |trace|) then oracle(|trace| + 1).data else READ_FAILED)
      && r.fpga.version == (if ReadSucceeds(oracle, n) then oracle(n + 1).data else READ_FAILED)
  {
    var f := FpgaState(i2cAddress, 0, 0);
    var rev := ReadReg(f, trace, oracle, REG_REV);
    var ver := ReadReg(f, rev.trace, oracle, REG_VER);
    InitResult(f.(revision := rev.value.1, version := ver.value.1), ver.trace, rev.value.0 && ver.value.0)
  }

  /** The status reply reports what `init` read: each register's byte, or
      0xFF (the low byte of -1) where its read failed. */
  lemma StatusShowsInit(i2cAddress: int, trace: seq<BusOp>, oracle: Oracle, flags: Engine.Mask)
    ensures var n := |trace| + |ReadOps(i2cAddress, REG_REV, oracle(|trace|).ok)|;
      var f := Init(i2cAddress, trace, oracle).fpga;
      var r := Engine.StatusReply(flags, f.version, f.revision);
      && r[2] == (if ReadSucceeds(oracle, |trace|) then oracle(|trace| + 1).data else 0xFF)
      && r[1] == (if ReadSucceeds(oracle, n) then oracle(n + 1).data else 0xFF)
  {
  }

  /** The registers `send_command` writes, in order. */
  const COMMAND_REGISTERS: seq<int> :=
    [REG_TX_START, REG_TX_PT_DUR_MSB, REG_TX_PT_DUR_LSB, REG_TX_PT_SEL,
     REG_TX_SEQ_LOOP_CNT, REG_PRF, REG_TX_SEQ_SEL, REG_CLK_SEL]

  /** The command fields `send_command` writes, in the same order. */
  function CommandValues(c: Engine.Command): seq<byte> {
    [c.txEn, c.txDurMsb, c.txDurLsb, c.ptSel, c.seqLoopCnt, c.prfSel, c.seqSel, c.clkSel]
  }

  /** `send_command`: eight register writes whose statuses are ignored. */
  function SendCommand(f: FpgaState, trace: seq<BusOp>, oracle: Oracle, c: Engine.Command): (r: seq<BusOp>)
    ensures |r| == |trace| + 8 && r[..|trace|] == trace
    ensures forall i | 0 <= i < 8 ::
      r[|trace| + i] == WriteValue(f.i2cAddress, COMMAND_REGISTERS[i], 1, CommandValues(c)[i], 1)
  {
    var w0 := WriteReg(f, trace, oracle, REG_TX_START, c.txEn);
    var w1 := WriteReg(f, w0.trace, oracle, REG_TX_PT_DUR_MSB, c.txDurMsb);
    var w2 := WriteReg(f, w1.trace, oracle, REG_TX_PT_DUR_LSB, c.txDurLsb);
    var w3 := WriteReg(f, w2.trace, oracle, REG_TX_PT_SEL, c.ptSel);
    var w4 := WriteReg(f, w3.trace, oracle, REG_TX_SEQ_LOOP_CNT, c.seqLoopCnt);
    var w5 := WriteReg(f, w4.trace, oracle, REG_PRF, c.prfSel);
    var w6 := WriteReg(f, w5.trace, oracle, REG_TX_SEQ_SEL, c.seqSel);
    var w7 := WriteReg(f, w6.trace, oracle, REG_CLK_SEL, c.clkSel);
    w7.trace
  }

  /** The operations of `send_command` do not depend on the driver's answers. */
  lemma SendCommandIgnoresFailures(f: FpgaState, trace: seq<BusOp>, a: Oracle, b: Oracle, c: Engine.Command)
    ensures SendCommand(f, trace, a, c) == SendCommand(f, trace, b, c)
  {
    var ra := SendCommand(f, trace, a, c);
    var rb := SendCommand(f, trace, b, c);
    forall j | 0 <= j < |ra|
      ensures ra[j] == rb[j]
    {
      if j < |trace| {
        assert ra[j] == ra[..|trace|][j];
      } else {
        var i := j - |trace|;
        assert ra[|trace| + i] == rb[|trace| + i];
      }
    }
  }

  /** `send_packet`: a stub that reports success without touching the bus. */
  function SendPacket(trace: seq<BusOp>, which: int, data: seq<byte>): (r: Access<bool>)
    ensures r.value && r.trace == trace
  {
    Access(trace, true)
  }
}
