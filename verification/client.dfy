/**
 The Python client `Wifi_I2C`: message framing with an incrementing
 transaction id, up to five attempts per message, reply checking, the
 `Wifi_I2C_Ex` exception, and the register calls built on `send_message`.

 The network is not modelled. What the wait of attempt k returns is given
 as `replies[k]`; `RepliesFromListener` derives those replies from the
 datagrams that reach the listener during attempt k, `windows[k]` (none when
 k is past the end).
 */
module Client {
  import opened Bytes
  import opened Wire
  import Listener

  /** Command codes. */
  const INIT_SEQ_CMD: byte := 0
  const CLIENT_PORT_CMD: byte := 1
  const I2C_ADDR_CMD: byte := 2
  const WRITE_REG_CMD: byte := 3
  const READ_REG_CMD: byte := 4
  const GET_FWREV_CMD: byte := 5
  const GET_RSSI_CMD: byte := 6

  /** Sends of one message before giving up. */
  const ATTEMPTS: nat := 5

  /** Error codes of a reply, and the client's own timeout code. */
  const ERR_NONE: byte := 0
  const ERR_NOT_ENUF_DATA: byte := 1
  const ERR_I2C_WRITE: byte := 2
  const ERR_I2C_READ: byte := 3
  const ERR_CONN_TIMEOUT: int := 99
  const ERR_UNSUPPORTED: byte := 255

  /** The `string` of the exception, by the case that chose it. */
  datatype ExText =
    | NoError
    | NotEnoughData(register: byte)
    | I2cWriteError(register: byte)
    | I2cReadError(register: byte)
    | UnsupportedCommand(command: byte)
    | UnknownError(code: byte)
    | ConnectionTimeout

  /** The fields of a `Wifi_I2C_Ex`; None where the constructor leaves the class default. */
  datatype WifiI2cEx = WifiI2cEx(
    transId: Option<seq<byte>>,
    command: Option<byte>,
    errorCode: Option<byte>,
    register: Option<byte>,
    error: Option<int>,
    text: ExText)

  /** `Wifi_I2C_Ex(-1)`, the timeout. It sets `error`, not `error_code`. */
  function TimeoutEx(): (ex: WifiI2cEx)
    ensures ex.error == Some(ERR_CONN_TIMEOUT) && ex.errorCode.None? && ex.text == ConnectionTimeout
  {
    WifiI2cEx(None, None, None, None, Some(ERR_CONN_TIMEOUT), ConnectionTimeout)
  }

  /** `Wifi_I2C_Ex(message)` for a reply message, taking `message[0:idLength]`
      as the transaction id. A message too short to hold an error code is an
      IndexError; an error code that names a register when the message holds
      none fails formatting `None` with `%i`, a TypeError. */
  function ExOfMessage(message: seq<byte>, idLength: nat): Result<WifiI2cEx, PyError> {
    var transId := if |message| < idLength then message else message[..idLength];
    if |message| < 6 then Err(IndexError)
    else
      var command := message[4];
      var code := message[5];
      var register := if |message| > 6 then Some(message[6]) else None;
      if NamesRegister(code) && register.None? then Err(TypeError)
      else
        var text := TextOf(command, code, if register.Some? then register.value else 0);
        Ok(WifiI2cEx(Some(transId), Some(command), Some(code), register, None, text))
  }

  /** An error code whose message names the register. */
  predicate NamesRegister(code: byte) {
    code == ERR_NOT_ENUF_DATA || code == ERR_I2C_WRITE || code == ERR_I2C_READ
  }

  /** The fields every reply-built exception carries. */
  predicate ExFields(ex: WifiI2cEx, message: seq<byte>)
    requires |message| >= 6
  {
    && ex.command == Some(message[4])
    && ex.errorCode == Some(message[5])
    && (ex.register.Some? <==> |message| > 6)
    && (|message| > 6 ==> ex.register == Some(message[6]))
    && ex.error.None?
    && ex.text == TextOf(message[4], message[5], if |message| > 6 then message[6] else 0)
  }

  /** The message the exception carries for an error code. */
  function TextOf(command: byte, code: byte, register: byte): ExText {
    if code == ERR_NONE then NoError
    else if code == ERR_NOT_ENUF_DATA then NotEnoughData(register)
    else if code == ERR_I2C_WRITE then I2cWriteError(register)
    else if code == ERR_I2C_READ then I2cReadError(register)
    else if code == ERR_UNSUPPORTED then UnsupportedCommand(command)
    else UnknownError(code)
  }

  /** `Wifi_I2C_Ex.__init__` on a reply message, as written: the transaction
      id it records is `message[0:3]`, three of the four id bytes. */
  function NewWifiI2cEx(message: seq<byte>): (r: Result<WifiI2cEx, PyError>)
    ensures |message| < 6 ==> r == Err(IndexError)
    ensures |message| >= 6 ==> (r.Err? <==> NamesRegister(message[5]) && |message| == 6)
    ensures r.Err? && |message| >= 6 ==> r.error == TypeError
    ensures r.Ok? ==> ExFields(r.value, message) && r.value.transId == Some(message[..3])
  {
    ExOfMessage(message, 3)
  }

  /** The recorded id is one byte short of the reply's transaction id, for every reply. */
  lemma TransIdTruncated(id: nat, command: byte, errorCode: byte, data: seq<byte>)
    requires id < Pow256(4)
    requires NewWifiI2cEx(ReplyBytes(id, command, errorCode, data)).Ok?
    ensures |NewWifiI2cEx(ReplyBytes(id, command, errorCode, data)).value.transId.value| == 3
    ensures NewWifiI2cEx(ReplyBytes(id, command, errorCode, data)).value.transId != Some(ToBE(id, 4))
  {
  }

  /** A concrete reply that shows it: id 0x01020304 is recorded as 01 02 03. */
  lemma TransIdTruncatedExample()
    ensures var m := ReplyBytes(0x01020304, WRITE_REG_CMD, ERR_I2C_WRITE, [0x10]);
      && m[..4] == [0x01, 0x02, 0x03, 0x04]
      && NewWifiI2cEx(m) == Ok(WifiI2cEx(Some([0x01, 0x02, 0x03]), Some(WRITE_REG_CMD), Some(ERR_I2C_WRITE),
                                         Some(0x10), None, I2cWriteError(0x10)))
  {
    var m := ReplyBytes(0x01020304, WRITE_REG_CMD, ERR_I2C_WRITE, [0x10]);
    assert ToBE(0x01020304, 4) == [0x01, 0x02, 0x03, 0x04] by {
      assert ToBE(0x01, 1) == [0x01];
      assert ToBE(0x0102, 2) == [0x01, 0x02];
      assert ToBE(0x010203, 3) == [0x01, 0x02, 0x03];
    }
    assert m == [0x01, 0x02, 0x03, 0x04, WRITE_REG_CMD, ERR_I2C_WRITE, 0x10];
    assert m[..3] == [0x01, 0x02, 0x03];
  }

  /** `Wifi_I2C_Ex.__init__` with the transaction id taken as `message[0:4]`,
      the whole id the reply echoes. */
  function NewWifiI2cExCorrected(message: seq<byte>): (r: Result<WifiI2cEx, PyError>)
    ensures |message| < 6 ==> r == Err(IndexError)
    ensures |message| >= 6 ==> (r.Err? <==> NamesRegister(message[5]) && |message| == 6)
    ensures r.Err? && |message| >= 6 ==> r.error == TypeError
    ensures r.Ok? ==> ExFields(r.value, message) && r.value.transId == Some(Listener.TransId(message))
  {
    ExOfMessage(message, 4)
  }

  /** With the correction, the exception records exactly the id of the request it answers. */
  lemma CorrectedTransIdIsRequestId(id: nat, command: byte, errorCode: byte, data: seq<byte>)
    requires id < Pow256(4)
    requires NewWifiI2cExCorrected(ReplyBytes(id, command, errorCode, data)).Ok?
    ensures var ex := NewWifiI2cExCorrected(ReplyBytes(id, command, errorCode, data)).value;
      ex.transId == Some(ToBE(id, 4)) && FromBE(ex.transId.value) == id
  {
    FromToBE(id, 4);
  }

  /** An exception `send_message` raises: its own Python error or a `Wifi_I2C_Ex`. */
  datatype ClientError = Raised(error: PyError) | Device(ex: WifiI2cEx)

  /** Python truth value of what `wait_for_reply` returned. */
  predicate ReplyTruthy(reply: Option<seq<byte>>) {
    reply.Some? && |reply.value| > 0
  }

  /** The reply checks at the end of `send_message`, with the exception
      recording `message[0:idLength]` as its transaction id. */
  function ReplyOutcome(reply: Option<seq<byte>>, idLength: nat): Result<Option<seq<byte>>, ClientError> {
    if !ReplyTruthy(reply) then Err(Device(TimeoutEx()))
    else
      var m := reply.value;
      if |m| < 6 then Err(Raised(IndexError))
      else if m[5] != ERR_NONE then
        match ExOfMessage(m, idLength)
        case Ok(ex) => Err(Device(ex))
        case Err(e) => Err(Raised(e))
      else if |m| <= 6 then Ok(None)
      else Ok(Some(m[6..]))
  }

  /** The reply checks at the end of `send_message`, as written: no reply is
      a timeout, a non-zero error byte raises `Wifi_I2C_Ex(reply)` (with its
      three-byte trans_id), and otherwise the data after the 6-byte header is
      returned, None if there is none. */
  function HandleReply(reply: Option<seq<byte>>): (r: Result<Option<seq<byte>>, ClientError>)
    ensures !ReplyTruthy(reply) <==> r == Err(Device(TimeoutEx()))
    ensures r.Ok? ==> reply.Some? && |reply.value| >= 6 && reply.value[5] == ERR_NONE
    ensures r.Ok? && r.value.Some? ==> reply.value == reply.value[..6] + r.value.value && |r.value.value| > 0
    ensures r.Ok? && r.value.None? ==> |reply.value| == 6
    ensures ReplyTruthy(reply) && |reply.value| < 6 ==> r == Err(Raised(IndexError))
    ensures ReplyTruthy(reply) && |reply.value| >= 6 && reply.value[5] == ERR_NONE ==>
      r == Ok(if |reply.value| == 6 then None else Some(reply.value[6..]))
    ensures ReplyTruthy(reply) && |reply.value| >= 6 && reply.value[5] != ERR_NONE ==>
      (r.Err? && r.error.Device? <==> NewWifiI2cEx(reply.value).Ok?)
      && (r.Err? && r.error.Device? ==> r.error.ex == NewWifiI2cEx(reply.value).value)
  {
    ReplyOutcome(reply, 3)
  }

  /** A success reply yields its data, or None when it carries none. */
  lemma HandleSuccessReply(id: nat, command: byte, data: seq<byte>)
    requires id < Pow256(4)
    ensures HandleReply(Some(ReplyBytes(id, command, ERR_NONE, data)))
         == Ok(if |data| == 0 then None else Some(data))
  {
  }

  /** An error reply raises a `Wifi_I2C_Ex` carrying the first three bytes of
      the echoed id, the command and the code, unless its code names a
      register the reply does not hold. */
  lemma HandleErrorReply(id: nat, command: byte, errorCode: byte, data: seq<byte>)
    requires id < Pow256(4) && errorCode != ERR_NONE
    ensures var r := HandleReply(Some(ReplyBytes(id, command, errorCode, data)));
      && (NamesRegister(errorCode) && |data| == 0 <==> r == Err(Raised(TypeError)))
      && (r.Err? && r.error.Device? ==>
           && r.error.ex.transId == Some(ToBE(id, 4)[..3])
           && r.error.ex.command == Some(command)
           && r.error.ex.errorCode == Some(errorCode))
  {
    var m := ReplyBytes(id, command, errorCode, data);
    assert m[..3] == ToBE(id, 4)[..3];
  }

  /** The reply checks with the corrected exception, which records the
      whole four-byte id. */
  function HandleReplyCorrected(reply: Option<seq<byte>>): (r: Result<Option<seq<byte>>, ClientError>)
    ensures ReplyTruthy(reply) && |reply.value| >= 6 && reply.value[5] != ERR_NONE ==>
      (r.Err? && r.error.Device? <==> NewWifiI2cExCorrected(reply.value).Ok?)
      && (r.Err? && r.error.Device? ==> r.error.ex == NewWifiI2cExCorrected(reply.value).value)
  {
    ReplyOutcome(reply, 4)
  }

  /** The correction changes nothing but the recorded transaction id: the
      same replies succeed with the same data, raise the same Python errors,
      and raise exceptions that agree in every other field. */
  lemma CorrectionOnlyChangesTransId(reply: Option<seq<byte>>)
    ensures var written := HandleReply(reply);
      var corrected := HandleReplyCorrected(reply);
      && (written.Ok? <==> corrected.Ok?)
      && (written.Ok? ==> written == corrected)
      && (written.Err? && written.error.Raised? <==> corrected.Err? && corrected.error.Raised?)
      && (written.Err? && written.error.Raised? ==> written == corrected)
      && (written.Err? && written.error.Device? ==>
           corrected.Err? && corrected.error.Device?
           && corrected.error.ex == written.error.ex.(transId := corrected.error.ex.transId))
  {
  }

  /** With the correction, an error reply's exception records exactly the
      id of the request it answers. */
  lemma HandleErrorReplyCorrected(id: nat, command: byte, errorCode: byte, data: seq<byte>)
    requires id < Pow256(4) && errorCode != ERR_NONE
    ensures var r := HandleReplyCorrected(Some(ReplyBytes(id, command, errorCode, data)));
      r.Err? && r.error.Device? ==> r.error.ex.transId == Some(ToBE(id, 4))
  {
    var m := ReplyBytes(id, command, errorCode, data);
    assert Listener.TransId(m) == ToBE(id, 4);
  }

  /** The client's state: the last transaction id used. The listener's
      state needs no place here: every attempt starts with `expect`, which
      resets all of it that a later reply depends on. */
  datatype Client = Client(transactionId: int)

  /** `Wifi_I2C.__init__`: no message sent yet. */
  function NewClient(): (c: Client)
    ensures c.transactionId == 0
  {
    Client(0)
  }

  /** The data `send_message` appends: nothing when it is falsy, its bytes
      when it is bytes or a bytearray, a TypeError otherwise. */
  function DataBytes(data: PyValue): (r: Result<seq<byte>, PyError>)
    ensures !Truthy(data) ==> r == Ok([])
    ensures Truthy(data) && (data.PyBytes? || data.PyByteArray?) ==> r == Ok(data.b)
    ensures Truthy(data) && !(data.PyBytes? || data.PyByteArray?) ==> r == Err(TypeError)
  {
    if !Truthy(data) then Ok([])
    else
      match data
      case PyBytes(b) => Ok(b)
      case PyByteArray(b) => Ok(b)
      case _ => Err(TypeError)
  }

  /** The datagram `send_message` builds for transaction id `id`. */
  function Message(id: int, command: byte, data: PyValue): (r: Result<seq<byte>, PyError>)
    ensures !(0 <= id < Pow256(4)) ==> r == Err(OverflowError)
    ensures r.Ok? <==> 0 <= id < Pow256(4) && DataBytes(data).Ok?
    ensures r.Ok? ==> r.value == RequestBytes(id, command, DataBytes(data).value)
  {
    var idBytes :- ToBytes(id, 4);
    var commandByte := [command];
    var payload :- DataBytes(data);
    ToFromBE(idBytes);
    Ok(idBytes + commandByte + payload)
  }

  /** The datagrams that reach the listener during attempt j. */
  function Window(windows: seq<seq<seq<byte>>>, j: int): seq<seq<byte>> {
    if 0 <= j < |windows| then windows[j] else []
  }

  /** The reply attempt j's `wait_for_reply` returns: the first datagram of
      its window that carries the id (see `ListenerGivesReplyIn`). */
  function ReplyIn(windows: seq<seq<seq<byte>>>, j: int, id: seq<byte>): (r: Option<seq<byte>>)
    ensures |id| == 4 ==> (ReplyTruthy(r) <==> r.Some?)
    ensures r.Some? ==> Listener.TransId(r.value) == id
  {
    Listener.FirstMatch(Window(windows, j), id)
  }

  /** The listener, told to expect the id and then handed attempt j's
      datagrams, returns exactly `ReplyIn`, whatever state it was left in. */
  lemma ListenerGivesReplyIn(ls: Listener.ListenerState, windows: seq<seq<seq<byte>>>, j: int, id: seq<byte>)
    ensures Listener.WaitForReply(Listener.Deliver(Listener.Expect(ls, id), Window(windows, j)))
         == ReplyIn(windows, j, id)
  {
    Listener.ReplyIsFirstMatch(Listener.Expect(ls, id), id, Window(windows, j));
  }

  /** What the five waits of a message return when the listener is handed
      `windows`: in each attempt, `expect(id)` and then that attempt's
      datagrams, whatever state the listener was left in before. */
  function AttemptReplies(windows: seq<seq<seq<byte>>>, id: seq<byte>): (rs: seq<Option<seq<byte>>>)
    ensures |rs| == ATTEMPTS && forall j | 0 <= j < ATTEMPTS :: rs[j] == ReplyIn(windows, j, id)
    ensures forall ls: Listener.ListenerState, j | 0 <= j < ATTEMPTS ::
      rs[j] == Listener.WaitForReply(Listener.Deliver(Listener.Expect(ls, id), Window(windows, j)))
  {
    assert forall ls: Listener.ListenerState, j | 0 <= j < ATTEMPTS ::
      ReplyIn(windows, j, id) == Listener.WaitForReply(Listener.Deliver(Listener.Expect(ls, id), Window(windows, j))) by {
      forall ls: Listener.ListenerState, j | 0 <= j < ATTEMPTS
        ensures ReplyIn(windows, j, id) == Listener.WaitForReply(Listener.Deliver(Listener.Expect(ls, id), Window(windows, j)))
      {
        ListenerGivesReplyIn(ls, windows, j, id);
      }
    }
    seq(ATTEMPTS, j => ReplyIn(windows, j, id))
  }

  /** No datagram carrying the id reaches the listener during attempts 0 to n - 1. */
  predicate Silent(windows: seq<seq<seq<byte>>>, id: seq<byte>, n: int) {
    forall j | 0 <= j < n :: ReplyIn(windows, j, id).None?
  }

  datatype Attempted = Attempted(sends: nat, reply: Option<seq<byte>>)

  /** The retry loop of `send_message` from attempt k on, given what each
      attempt's wait returns: stop at the first truthy reply or after the last attempt. */
  function Attempts(replies: seq<Option<seq<byte>>>, k: nat): (r: Attempted)
    requires |replies| == ATTEMPTS && k < ATTEMPTS
    ensures 1 <= r.sends <= ATTEMPTS - k
    ensures r.reply == replies[k + r.sends - 1]
    ensures ReplyTruthy(r.reply) || r.sends == ATTEMPTS - k
    ensures forall j | k <= j < k + r.sends - 1 :: !ReplyTruthy(replies[j])
    decreases ATTEMPTS - k
  {
    if ReplyTruthy(replies[k]) || k + 1 == ATTEMPTS then Attempted(1, replies[k])
    else
      var rest := Attempts(replies, k + 1);
      Attempted(rest.sends + 1, rest.reply)
  }

  /** What a client call did: the client after it, the datagrams it sent, its result. */
  datatype Exchange<T> = Exchange(client: Client, sent: seq<seq<byte>>, result: Result<T, ClientError>)

  /** The next transaction id still fits the four id bytes of a message. */
  predicate NextIdFits(c: Client) {
    0 <= c.transactionId + 1 < Pow256(4)
  }

  /** `send_message`. `replies[k]` is what the wait of attempt k returns
      (see `RepliesFromListener` for where those come from). */
  function SendMessage(c: Client, command: byte, data: PyValue, replies: seq<Option<seq<byte>>>): (r: Exchange<Option<seq<byte>>>)
    requires |replies| == ATTEMPTS
    ensures r.client.transactionId == c.transactionId + 1
    ensures var message := Message(c.transactionId + 1, command, data);
      && (message.Err? ==> r.sent == [] && r.result == Err(Raised(message.error)))
      && (message.Ok? ==>
           && 1 <= |r.sent| <= ATTEMPTS
           && (forall i | 0 <= i < |r.sent| :: r.sent[i] == message.value)
           && (forall j | 0 <= j < |r.sent| - 1 :: !ReplyTruthy(replies[j]))
           && (ReplyTruthy(replies[|r.sent| - 1]) || |r.sent| == ATTEMPTS)
           && r.result == HandleReply(replies[|r.sent| - 1]))
  {
    var id := c.transactionId + 1;
    var built := Message(id, command, data);
    if built.Err? then Exchange(Client(id), [], Err(Raised(built.error)))
    else
      var attempted := Attempts(replies, 0);
      Exchange(Client(id), Repeat(built.value, attempted.sends), HandleReply(attempted.reply))
  }

  /** n copies of the same datagram. */
  function Repeat(message: seq<byte>, n: nat): (r: seq<seq<byte>>)
    ensures |r| == n && forall i | 0 <= i < n :: r[i] == message
  {
    seq(n, _ => message)
  }

  /** With the listener in the loop: the message is sent until an attempt
      sees a datagram carrying its id, and the first such datagram is the
      reply that decides the result; five silent attempts end the loop. */
  lemma RepliesFromListener(c: Client, command: byte, data: PyValue, windows: seq<seq<seq<byte>>>)
    requires Message(c.transactionId + 1, command, data).Ok?
    ensures var id := ToBE(c.transactionId + 1, 4);
      var r := SendMessage(c, command, data, AttemptReplies(windows, id));
      && Silent(windows, id, |r.sent| - 1)
      && (|r.sent| < ATTEMPTS ==> ReplyIn(windows, |r.sent| - 1, id).Some?)
      && r.result == HandleReply(ReplyIn(windows, |r.sent| - 1, id))
  {
    var id := ToBE(c.transactionId + 1, 4);
    var replies := AttemptReplies(windows, id);
    var r := SendMessage(c, command, data, replies);
    forall j | 0 <= j < |r.sent| - 1
      ensures ReplyIn(windows, j, id).None?
    {
      assert !ReplyTruthy(replies[j]);
    }
  }

  /** Every datagram a message sends, first try or retry, reads on the server
      side as the same request: the new transaction id, the command, the data. */
  lemma SentRequestsDecode(c: Client, command: byte, data: PyValue, replies: seq<Option<seq<byte>>>)
    requires |replies| == ATTEMPTS
    requires Message(c.transactionId + 1, command, data).Ok?
    ensures var r := SendMessage(c, command, data, replies);
      forall i | 0 <= i < |r.sent| ::
        DecodeRequest(r.sent[i]) == Some(Request(c.transactionId + 1, command, DataBytes(data).value))
  {
    var id := c.transactionId + 1;
    var payload := DataBytes(data).value;
    RequestRoundTrip(id, command, payload);
    var r := SendMessage(c, command, data, replies);
    CopiesDecode(r.sent, Message(id, command, data).value, Request(id, command, payload));
  }

  /** Copies of one datagram all read as that datagram's request. */
  lemma CopiesDecode(sent: seq<seq<byte>>, message: seq<byte>, request: Request)
    requires DecodeRequest(message) == Some(request)
    requires forall i | 0 <= i < |sent| :: sent[i] == message
    ensures forall i | 0 <= i < |sent| :: DecodeRequest(sent[i]) == Some(request)
  {
  }

  /** No reply in any attempt: five sends, then the timeout. */
  lemma NoReplyTimesOut(c: Client, command: byte, data: PyValue, replies: seq<Option<seq<byte>>>)
    requires |replies| == ATTEMPTS
    requires Message(c.transactionId + 1, command, data).Ok?
    requires forall j | 0 <= j < ATTEMPTS :: replies[j].None?
    ensures |SendMessage(c, command, data, replies).sent| == ATTEMPTS
    ensures SendMessage(c, command, data, replies).result == Err(Device(TimeoutEx()))
  {
  }

  /** A success reply in the first attempt: one send, and the reply's data is returned. */
  lemma PromptSuccess(c: Client, command: byte, data: PyValue, replies: seq<Option<seq<byte>>>, replyData: seq<byte>)
    requires |replies| == ATTEMPTS
    requires Message(c.transactionId + 1, command, data).Ok?
    requires replies[0] == Some(ReplyBytes(c.transactionId + 1, command, ERR_NONE, replyData))
    ensures |SendMessage(c, command, data, replies).sent| == 1
    ensures SendMessage(c, command, data, replies).result == Ok(if |replyData| == 0 then None else Some(replyData))
  {
    var id := c.transactionId + 1;
    var r := SendMessage(c, command, data, replies);
    var reply := ReplyBytes(id, command, ERR_NONE, replyData);
    assert ReplyTruthy(replies[0]);
    assert |r.sent| == 1;
    HandleSuccessReply(id, command, replyData);
  }

  /** A register call whose payload does not encode raises before anything is
      sent and before the transaction id moves. */
  function Call(c: Client, command: byte, payload: Result<seq<byte>, PyError>, replies: seq<Option<seq<byte>>>): (r: Exchange<Option<seq<byte>>>)
    requires |replies| == ATTEMPTS
    ensures payload.Err? ==> r == Exchange(c, [], Err(Raised(payload.error)))
    ensures payload.Ok? ==> r == SendMessage(c, command, PyBytes(payload.value), replies)
    ensures payload.Ok? ==> r.client.transactionId == c.transactionId + 1
  {
    match payload
    case Err(e) => Exchange(c, [], Err(Raised(e)))
    case Ok(p) => SendMessage(c, command, PyBytes(p), replies)
  }

  /** Every datagram a call sends reads on the server as the new id, the command and the payload. */
  lemma CallDecodes(c: Client, command: byte, payload: Result<seq<byte>, PyError>, replies: seq<Option<seq<byte>>>)
    requires |replies| == ATTEMPTS
    ensures payload.Ok? && NextIdFits(c) ==>
      var r := Call(c, command, payload, replies);
      forall i | 0 <= i < |r.sent| ::
        DecodeRequest(r.sent[i]) == Some(Request(c.transactionId + 1, command, payload.value))
  {
    if payload.Ok? && NextIdFits(c) {
      SentRequestsDecode(c, command, PyBytes(payload.value), replies);
    }
  }

  /** `write_reg`. */
  function WriteRegCall(c: Client, arg: RegisterArg, value: PyValue, regWidth: int, replies: seq<Option<seq<byte>>>): (r: Exchange<Option<seq<byte>>>)
    requires |replies| == ATTEMPTS
    ensures BuildRegisterData(arg, value, regWidth).Err? ==> r.client == c && r.sent == [] && r.result.Err?
    ensures BuildRegisterData(arg, value, regWidth).Ok? ==>
      r == SendMessage(c, WRITE_REG_CMD, PyBytes(BuildRegisterData(arg, value, regWidth).value), replies)
    ensures BuildRegisterData(arg, value, regWidth).Ok? ==> r.client.transactionId == c.transactionId + 1
    ensures BuildRegisterData(arg, value, regWidth).Ok? && NextIdFits(c) ==> 1 <= |r.sent| <= ATTEMPTS
  {
    Call(c, WRITE_REG_CMD, BuildRegisterData(arg, value, regWidth), replies)
  }

  /** Every datagram of `write_reg`, with a list or with one register,
      carries, as the server reads it, exactly the pairs written, in order. */
  lemma WriteRegDelivers(c: Client, arg: RegisterArg, value: PyValue, regWidth: int, replies: seq<Option<seq<byte>>>)
    requires |replies| == ATTEMPTS
    requires forall i | 0 <= i < |Pairs(arg, value)| :: Encodable(Pairs(arg, value)[i].0, Pairs(arg, value)[i].1, regWidth)
    requires NextIdFits(c)
    ensures var r := WriteRegCall(c, arg, value, regWidth, replies);
      forall i | 0 <= i < |r.sent| ::
        && DecodeRequest(r.sent[i]).Some?
        && DecodeRequest(r.sent[i]).value.transactionId == c.transactionId + 1
        && DecodeRequest(r.sent[i]).value.command == WRITE_REG_CMD
        && ReadsBackAs(DecodeRequest(r.sent[i]).value.payload, Pairs(arg, value), regWidth)
  {
    var payload := BuildRegisterData(arg, value, regWidth).value;
    assert DataBytes(PyBytes(payload)).value == payload;
    SentRequestsDecode(c, WRITE_REG_CMD, PyBytes(payload), replies);
  }

  /** `read_reg`: the reply data as a big-endian integer. A success reply
      without data hands None to `int.from_bytes`, a TypeError. */
  function ReadRegCall(c: Client, register: int, length: int, regWidth: int, replies: seq<Option<seq<byte>>>): (r: Exchange<nat>)
    requires |replies| == ATTEMPTS
    ensures ReadRegPayload(register, length, regWidth).Err? ==> r.client == c && r.sent == [] && r.result.Err?
    ensures ReadRegPayload(register, length, regWidth).Ok? ==>
      var x := SendMessage(c, READ_REG_CMD, PyBytes(ReadRegPayload(register, length, regWidth).value), replies);
      && r.client == x.client && r.sent == x.sent
      && (x.result.Ok? && x.result.value.Some? ==> r.result == Ok(FromBE(x.result.value.value)))
      && (x.result == Ok(None) ==> r.result == Err(Raised(TypeError)))
      && (x.result.Err? ==> r.result == Err(x.result.error))
    ensures r.result.Ok? ==> |r.sent| >= 1 && r.client.transactionId == c.transactionId + 1
  {
    var x := Call(c, READ_REG_CMD, ReadRegPayload(register, length, regWidth), replies);
    match x.result
    case Err(e) => Exchange(x.client, x.sent, Err(e))
    case Ok(None) => Exchange(x.client, x.sent, Err(Raised(TypeError)))
    case Ok(Some(d)) => Exchange(x.client, x.sent, Ok(FromBE(d)))
  }

  /** A read answered at once with the n-byte encoding of x returns x. */
  lemma ReadRegReturnsValue(c: Client, register: int, length: int, regWidth: int,
                            replies: seq<Option<seq<byte>>>, x: nat, n: nat)
    requires |replies| == ATTEMPTS
    requires ReadRegPayload(register, length, regWidth).Ok?
    requires NextIdFits(c)
    requires 0 < n && x < Pow256(n)
    requires replies[0] == Some(ReplyBytes(c.transactionId + 1, READ_REG_CMD, ERR_NONE, ToBE(x, n)))
    ensures ReadRegCall(c, register, length, regWidth, replies).result == Ok(x)
    ensures |ReadRegCall(c, register, length, regWidth, replies).sent| == 1
  {
    var payload := ReadRegPayload(register, length, regWidth).value;
    PromptSuccess(c, READ_REG_CMD, PyBytes(payload), replies, ToBE(x, n));
    FromToBE(x, n);
  }

  /** `set_i2c_address`. */
  function SetI2cAddressCall(c: Client, address: int, replies: seq<Option<seq<byte>>>): (r: Exchange<Option<seq<byte>>>)
    requires |replies| == ATTEMPTS
    ensures !(0 <= address < 256) ==> r == Exchange(c, [], Err(Raised(OverflowError)))
    ensures 0 <= address < 256 ==> r == SendMessage(c, I2C_ADDR_CMD, PyBytes([address]), replies)
    ensures 0 <= address < 256 ==> r.client.transactionId == c.transactionId + 1
    ensures 0 <= address < 256 && NextIdFits(c) ==> 1 <= |r.sent| <= ATTEMPTS
    ensures 0 <= address < 256 && NextIdFits(c) ==>
      forall i | 0 <= i < |r.sent| :: DecodeRequest(r.sent[i]) == Some(Request(c.transactionId + 1, I2C_ADDR_CMD, [address]))
  {
    CallDecodes(c, I2C_ADDR_CMD, I2cAddressPayload(address), replies);
    Call(c, I2C_ADDR_CMD, I2cAddressPayload(address), replies)
  }

  /** `set_client_port`. */
  function SetClientPortCall(c: Client, port: int, replies: seq<Option<seq<byte>>>): (r: Exchange<Option<seq<byte>>>)
    requires |replies| == ATTEMPTS
    ensures !(0 <= port < LENGTH_LIMIT) ==> r == Exchange(c, [], Err(Raised(OverflowError)))
    ensures 0 <= port < LENGTH_LIMIT ==> r == SendMessage(c, CLIENT_PORT_CMD, PyBytes(ClientPortPayload(port).value), replies)
    ensures 0 <= port < LENGTH_LIMIT ==> r.client.transactionId == c.transactionId + 1
    ensures 0 <= port < LENGTH_LIMIT && NextIdFits(c) ==> 1 <= |r.sent| <= ATTEMPTS
    ensures 0 <= port < LENGTH_LIMIT && NextIdFits(c) ==>
      forall i | 0 <= i < |r.sent| ::
        && DecodeRequest(r.sent[i]).Some?
        && DecodeRequest(r.sent[i]).value.command == CLIENT_PORT_CMD
        && FromBE(DecodeRequest(r.sent[i]).value.payload) == port
  {
    CallDecodes(c, CLIENT_PORT_CMD, ClientPortPayload(port), replies);
    Call(c, CLIENT_PORT_CMD, ClientPortPayload(port), replies)
  }
}
