/**
 The Python client's payload encoders, with the Python conversions they rely
 on (`int.to_bytes`, `bytes(bytearray)`) and the exceptions those raise, and
 the decoders a receiver uses to read the payloads back.
 */
module Wire {
  import opened Bytes

  /** Exceptions the client raises by itself, before or after any network traffic. */
  datatype PyError = TypeError | ValueError | OverflowError | IndexError

  /** The Python values the encoders are handed. */
  datatype PyValue =
    | PyNone
    | PyInt(i: int)
    | PyBytes(b: seq<byte>)
    | PyByteArray(b: seq<byte>)
      /** any other object (a str, a bool, a list, ...) and its truth value */
    | PyOther(truthy: bool)

  /** Python truth value. */
  predicate Truthy(v: PyValue) {
    match v
    case PyNone => false
    case PyInt(i) => i != 0
    case PyBytes(b) => |b| > 0
    case PyByteArray(b) => |b| > 0
    case PyOther(t) => t
  }

  /** `x.to_bytes(n, 'big')`: a negative length is a ValueError, a negative
      or too large x an OverflowError. */
  function ToBytes(x: int, n: int): (r: Result<seq<byte>, PyError>)
    ensures n < 0 ==> r == Err(ValueError)
    ensures n >= 0 && !(0 <= x < Pow256(n)) ==> r == Err(OverflowError)
    ensures r.Ok? <==> n >= 0 && 0 <= x < Pow256(n)
    ensures r.Ok? ==> |r.value| == n && FromBE(r.value) == x
  {
    if n < 0 then Err(ValueError)
    else if x < 0 || x >= Pow256(n) then Err(OverflowError)
    else
      FromToBE(x, n);
      Ok(ToBE(x, n))
  }

  /** What `to_bytes` produces is the big-endian encoding. */
  lemma ToBytesIsToBE(x: int, n: int)
    requires ToBytes(x, n).Ok?
    ensures n >= 0 && x >= 0 && ToBytes(x, n).value == ToBE(x, n)
  {
    ToFromBE(ToBytes(x, n).value);
  }

  /** The largest value a 2-byte length field holds, plus one. */
  const LENGTH_LIMIT: nat := 65536

  /** The wire layout of one write-register entry: width byte, register number
      in `width` big-endian bytes, data length in 2 big-endian bytes, data. */
  function EntryBytes(width: byte, register: nat, data: seq<byte>): (r: seq<byte>)
    requires register < Pow256(width) && |data| < LENGTH_LIMIT
    ensures |r| == 3 + width as int + |data|
  {
    [width] + (ToBE(register, width) + (ToBE(|data|, 2) + data))
  }

  /** `value` as the bytes to store: an int becomes `regWidth` big-endian
      bytes, a bytearray becomes bytes, anything else is refused. */
  function ValueBytes(value: PyValue, regWidth: int): (r: Result<seq<byte>, PyError>)
    ensures !(value.PyInt? || value.PyBytes? || value.PyByteArray?) ==> r == Err(TypeError)
    ensures value.PyInt? ==> r == ToBytes(value.i, regWidth)
    ensures value.PyBytes? || value.PyByteArray? ==> r == Ok(value.b)
  {
    match value
    case PyInt(i) => ToBytes(i, regWidth)
    case PyBytes(b) => Ok(b)
    case PyByteArray(b) => Ok(b)
    case _ => Err(TypeError)
  }

  /** The conditions under which one (register, value) pair encodes. */
  predicate Encodable(register: int, value: PyValue, regWidth: int) {
    && 0 <= regWidth < 256
    && 0 <= register < Pow256(regWidth)
    && ValueBytes(value, regWidth).Ok?
    && |ValueBytes(value, regWidth).value| < LENGTH_LIMIT
  }

  /** `build_one_register_string`. */
  function BuildOneRegisterString(register: int, value: PyValue, regWidth: int): (r: Result<seq<byte>, PyError>)
    ensures r.Ok? <==> Encodable(register, value, regWidth)
    ensures r.Ok? ==> r.value == EntryBytes(regWidth, register, ValueBytes(value, regWidth).value)
    ensures r.Ok? ==> |r.value| == 3 + regWidth + |ValueBytes(value, regWidth).value|
    ensures !(value.PyInt? || value.PyBytes? || value.PyByteArray?) ==> r == Err(TypeError)
    ensures value.PyInt? && regWidth < 0 ==> r == Err(ValueError)
  {
    // an int becomes reg_width bytes first; this is where a bad width or value fails
    var v :- ValueBytes(value, regWidth);
    var valueLength :- ToBytes(|v|, 2);
    var registerBytes :- ToBytes(register, regWidth);
    var widthByte :- ToBytes(regWidth, 1);
    ToBytesIsToBE(|v|, 2);
    ToBytesIsToBE(register, regWidth);
    ToBytesIsToBE(regWidth, 1);
    Ok(widthByte + (registerBytes + (valueLength + v)))
  }

  /** An int value takes exactly `regWidth` bytes, so the entry's length field reads `regWidth`. */
  lemma IntLengthField(register: int, i: int, regWidth: int)
    requires BuildOneRegisterString(register, PyInt(i), regWidth).Ok?
    ensures var r := BuildOneRegisterString(register, PyInt(i), regWidth).value;
      |r| == 3 + 2 * regWidth && FromBE(r[1 + regWidth..3 + regWidth]) == regWidth
  {
    var v := ToBytes(i, regWidth).value;
    var registerBytes := ToBE(register, regWidth);
    var lengthBytes := ToBE(regWidth, 2);
    var r := BuildOneRegisterString(register, PyInt(i), regWidth).value;
    assert r == [regWidth] + (registerBytes + (lengthBytes + v));
    SplitFront([regWidth] + registerBytes, lengthBytes + v, []);
    SplitFront(lengthBytes, v, []);
    assert r[1 + regWidth..3 + regWidth] == lengthBytes;
    FromToBE(regWidth, 2);
  }

  /** `build_register_data` on a list: the entries' encodings in order; the
      first entry that does not encode decides the exception. */
  function BuildRegisterList(entries: seq<(int, PyValue)>, regWidth: int): (r: Result<seq<byte>, PyError>)
    ensures r.Ok? <==> forall i | 0 <= i < |entries| :: Encodable(entries[i].0, entries[i].1, regWidth)
    ensures |entries| == 0 ==> r == Ok([])
  {
    if |entries| == 0 then Ok([])
    else
      var head :- BuildOneRegisterString(entries[0].0, entries[0].1, regWidth);
      var tail :- BuildRegisterList(entries[1..], regWidth);
      Ok(head + tail)
  }

  /** One write-register entry as a receiver reads it. */
  datatype Entry = Entry(width: byte, register: nat, data: seq<byte>)

  /** Reads one entry from the front of p, field by field; returns it with
      the number of bytes it used. */
  function DecodeEntry(p: seq<byte>): (r: Option<(Entry, nat)>)
    ensures r.Some? ==> 0 < r.value.1 <= |p|
  {
    if |p| == 0 then None
    else
      var w: nat := p[0];
      var afterWidth := p[1..];
      if |afterWidth| < w + 2 then None
      else
        var afterRegister := afterWidth[w..];
        var len := FromBE(afterRegister[..2]);
        var afterLength := afterRegister[2..];
        if |afterLength| < len then None
        else Some((Entry(w, FromBE(afterWidth[..w]), afterLength[..len]), 3 + w + len))
  }

  /** Reads entries until the payload is used up; None if it ends inside an entry. */
  function DecodeEntries(p: seq<byte>): Option<seq<Entry>>
    decreases |p|
  {
    if |p| == 0 then Some([])
    else
      match DecodeEntry(p)
      case None => None
      case Some((e, n)) =>
        match DecodeEntries(p[n..])
        case None => None
        case Some(es) => Some([e] + es)
  }

  /** An entry's encoding is read back whole, whatever follows it. */
  lemma DecodeEntryBytes(width: byte, register: nat, data: seq<byte>, rest: seq<byte>)
    requires register < Pow256(width) && |data| < LENGTH_LIMIT
    ensures DecodeEntry(EntryBytes(width, register, data) + rest)
         == Some((Entry(width, register, data), 3 + width as int + |data|))
  {
    FromToBE(register, width);
    FromToBE(|data|, 2);
    DecodeEntryFields(width, ToBE(register, width), ToBE(|data|, 2), data, rest);
  }

  /** The decoder reads the fields in the order the layout puts them. */
  lemma DecodeEntryFields(width: byte, registerBytes: seq<byte>, lengthBytes: seq<byte>, data: seq<byte>, rest: seq<byte>)
    requires |registerBytes| == width && |lengthBytes| == 2 && FromBE(lengthBytes) == |data|
    ensures DecodeEntry([width] + (registerBytes + (lengthBytes + data)) + rest)
         == Some((Entry(width, FromBE(registerBytes), data), 3 + width as int + |data|))
  {
    SplitFront([width], registerBytes + (lengthBytes + data), rest);
    SplitFront(registerBytes, lengthBytes + data, rest);
    SplitFront(lengthBytes, data, rest);
    SplitFront(data, [], rest);
  }

  /** The front of a concatenation, and what follows it. */
  lemma SplitFront(a: seq<byte>, b: seq<byte>, c: seq<byte>)
    ensures ((a + b) + c)[..|a|] == a && ((a + b) + c)[|a|..] == b + c
  {
  }

  /** The entry a (register, value) pair written at width regWidth stands for. */
  predicate Denotes(e: Entry, register: int, value: PyValue, regWidth: int) {
    && e.width == regWidth
    && e.register == register
    && match value
       case PyInt(i) => |e.data| == regWidth && FromBE(e.data) == i
       case PyBytes(b) => e.data == b
       case PyByteArray(b) => e.data == b
       case _ => false
  }

  /** The entries are self-delimiting: decoding an encoded list gives back
      every register and value, in order. */
  lemma {:induction false} RegisterListRoundTrip(entries: seq<(int, PyValue)>, regWidth: int)
    requires BuildRegisterList(entries, regWidth).Ok?
    ensures var d := DecodeEntries(BuildRegisterList(entries, regWidth).value);
      && d.Some?
      && |d.value| == |entries|
      && forall i | 0 <= i < |entries| :: Denotes(d.value[i], entries[i].0, entries[i].1, regWidth)
  {
    if |entries| > 0 {
      ListCons(entries, regWidth);
      var head := BuildOneRegisterString(entries[0].0, entries[0].1, regWidth).value;
      var tail := BuildRegisterList(entries[1..], regWidth).value;
      var e := PairDecodes(entries[0].0, entries[0].1, regWidth, tail);
      RegisterListRoundTrip(entries[1..], regWidth);
      var rest := DecodeEntries(tail).value;
      DecodeEntriesCons(head, tail, e, rest);
      DenotesCons(entries, regWidth, e, rest);
    }
  }

  /** A non-empty list encodes as its first pair followed by the rest. */
  lemma ListCons(entries: seq<(int, PyValue)>, regWidth: int)
    requires |entries| > 0 && BuildRegisterList(entries, regWidth).Ok?
    ensures BuildOneRegisterString(entries[0].0, entries[0].1, regWidth).Ok?
    ensures BuildRegisterList(entries[1..], regWidth).Ok?
    ensures BuildRegisterList(entries, regWidth).value
         == BuildOneRegisterString(entries[0].0, entries[0].1, regWidth).value
          + BuildRegisterList(entries[1..], regWidth).value
  {
  }

  /** The first entry stands for the first pair and the rest for the rest. */
  lemma DenotesCons(entries: seq<(int, PyValue)>, regWidth: int, e: Entry, rest: seq<Entry>)
    requires |entries| > 0 && |rest| == |entries| - 1
    requires Denotes(e, entries[0].0, entries[0].1, regWidth)
    requires forall i | 0 <= i < |rest| :: Denotes(rest[i], entries[1..][i].0, entries[1..][i].1, regWidth)
    ensures forall i | 0 <= i < |entries| :: Denotes(([e] + rest)[i], entries[i].0, entries[i].1, regWidth)
  {
    forall i | 1 <= i < |entries|
      ensures Denotes(([e] + rest)[i], entries[i].0, entries[i].1, regWidth)
    {
      assert ([e] + rest)[i] == rest[i - 1];
      assert entries[i] == entries[1..][i - 1];
    }
  }

  /** An entry read from the front, then the entries after it. */
  lemma DecodeEntriesCons(head: seq<byte>, tail: seq<byte>, e: Entry, rest: seq<Entry>)
    requires DecodeEntry(head + tail) == Some((e, |head|)) && DecodeEntries(tail) == Some(rest)
    ensures DecodeEntries(head + tail) == Some([e] + rest)
  {
    SplitFront(head, tail, []);
    assert tail + [] == tail;
  }

  /** One encoded pair is read back as the entry it stands for, whatever follows it. */
  lemma PairDecodes(register: int, value: PyValue, regWidth: int, rest: seq<byte>) returns (e: Entry)
    requires BuildOneRegisterString(register, value, regWidth).Ok?
    ensures var head := BuildOneRegisterString(register, value, regWidth).value;
      DecodeEntry(head + rest) == Some((e, |head|)) && Denotes(e, register, value, regWidth)
  {
    var v := ValueBytes(value, regWidth).value;
    DecodeEntryBytes(regWidth, register, v, rest);
    e := Entry(regWidth, register, v);
  }

  /** What `build_register_data` is handed: a list of (register, value)
      pairs, or one register number to go with a separate value. */
  datatype RegisterArg = RegisterList(entries: seq<(int, PyValue)>) | RegisterNumber(register: int)

  /** The (register, value) pairs a call writes. A list ignores the separate value. */
  function Pairs(arg: RegisterArg, value: PyValue): seq<(int, PyValue)> {
    match arg
    case RegisterList(entries) => entries
    case RegisterNumber(register) => [(register, value)]
  }

  /** A receiver decoding p finds one entry per pair, each standing for its pair, in order. */
  predicate ReadsBackAs(p: seq<byte>, pairs: seq<(int, PyValue)>, regWidth: int) {
    var d := DecodeEntries(p);
    && d.Some?
    && |d.value| == |pairs|
    && forall i | 0 <= i < |pairs| :: Denotes(d.value[i], pairs[i].0, pairs[i].1, regWidth)
  }

  /** `build_register_data`: it encodes exactly when every pair does, and
      what it produces reads back as those pairs. */
  function BuildRegisterData(arg: RegisterArg, value: PyValue, regWidth: int): (r: Result<seq<byte>, PyError>)
    ensures r.Ok? <==> forall i | 0 <= i < |Pairs(arg, value)| :: Encodable(Pairs(arg, value)[i].0, Pairs(arg, value)[i].1, regWidth)
    ensures r.Ok? ==> ReadsBackAs(r.value, Pairs(arg, value), regWidth)
  {
    match arg
    case RegisterList(entries) =>
      assert Pairs(arg, value) == entries;
      var r := BuildRegisterList(entries, regWidth);
      if r.Ok? then
        RegisterListRoundTrip(entries, regWidth);
        r
      else r
    case RegisterNumber(register) =>
      assert Pairs(arg, value)[0] == (register, value);
      var r := BuildOneRegisterString(register, value, regWidth);
      if r.Ok? then
        PairRoundTrip(register, value, regWidth);
        r
      else r
  }

  /** One encoded pair, alone, reads back as that pair. */
  lemma PairRoundTrip(register: int, value: PyValue, regWidth: int)
    requires BuildOneRegisterString(register, value, regWidth).Ok?
    ensures ReadsBackAs(BuildOneRegisterString(register, value, regWidth).value, [(register, value)], regWidth)
  {
    var p := BuildOneRegisterString(register, value, regWidth).value;
    var e := PairDecodes(register, value, regWidth, []);
    assert p + [] == p;
    DecodeEntriesCons(p, [], e, []);
    assert [e] + [] == [e];
  }

  /** `read_reg`'s payload: width byte, register number, 2-byte read length. */
  function ReadRegPayload(register: int, length: int, regWidth: int): (r: Result<seq<byte>, PyError>)
    ensures r.Ok? <==> 0 <= regWidth < 256 && 0 <= register < Pow256(regWidth) && 0 <= length < LENGTH_LIMIT
    ensures r.Ok? ==> |r.value| == 3 + regWidth && r.value[0] == regWidth
    ensures regWidth < 0 ==> r == Err(ValueError)
  {
    var registerBytes :- ToBytes(register, regWidth);
    var widthByte :- ToBytes(regWidth, 1);
    var lengthBytes :- ToBytes(length, 2);
    ToFromBE(widthByte);
    Ok(widthByte + registerBytes + lengthBytes)
  }

  /** A read-register request as a receiver reads it. */
  datatype ReadRequest = ReadRequest(width: byte, register: nat, length: nat)

  function DecodeReadRequest(p: seq<byte>): Option<ReadRequest> {
    if |p| == 0 then None
    else
      var w: nat := p[0];
      if |p| != 3 + w then None
      else Some(ReadRequest(p[0], FromBE(p[1..1 + w]), FromBE(p[1 + w..])))
  }

  /** The read-register payload carries exactly the width, register and length asked for. */
  lemma ReadRegPayloadRoundTrip(register: int, length: int, regWidth: int)
    requires ReadRegPayload(register, length, regWidth).Ok?
    ensures DecodeReadRequest(ReadRegPayload(register, length, regWidth).value)
         == Some(ReadRequest(regWidth, register, length))
  {
    var p := ReadRegPayload(register, length, regWidth).value;
    assert p == ToBE(regWidth, 1) + ToBE(register, regWidth) + ToBE(length, 2);
    assert p[1..1 + regWidth] == ToBE(register, regWidth);
    assert p[1 + regWidth..] == ToBE(length, 2);
    FromToBE(register, regWidth);
    FromToBE(length, 2);
  }

  /** `set_i2c_address`'s payload: the device address as one byte. */
  function I2cAddressPayload(address: int): (r: Result<seq<byte>, PyError>)
    ensures r.Ok? <==> 0 <= address < 256
    ensures r.Ok? ==> r.value == [address]
    ensures !(0 <= address < 256) ==> r == Err(OverflowError)
  {
    var b :- ToBytes(address, 1);
    assert b == [b[0]] && FromBE(b) == b[0];
    Ok(b)
  }

  /** `set_client_port`'s payload: the port number as two big-endian bytes. */
  function ClientPortPayload(port: int): (r: Result<seq<byte>, PyError>)
    ensures r.Ok? <==> 0 <= port < LENGTH_LIMIT
    ensures r.Ok? ==> |r.value| == 2 && r.value[0] == port / 256 && r.value[1] == port % 256
  {
    var b :- ToBytes(port, 2);
    ToFromBE(b);
    Ok(b)
  }

  /** A request as the server reads it: transaction id, command code, payload. */
  datatype Request = Request(transactionId: nat, command: byte, payload: seq<byte>)

  /** The server's reading of a request datagram; shorter than 5 bytes is not a request. */
  function DecodeRequest(m: seq<byte>): (r: Option<Request>)
    ensures r.Some? <==> |m| >= 5
  {
    if |m| < 5 then None else Some(Request(FromBE(m[..4]), m[4], m[5..]))
  }

  /** The request layout: 4-byte big-endian transaction id, command byte, payload. */
  function RequestBytes(id: nat, command: byte, payload: seq<byte>): (r: seq<byte>)
    requires id < Pow256(4)
    ensures |r| == 5 + |payload|
  {
    ToBE(id, 4) + [command] + payload
  }

  lemma RequestRoundTrip(id: nat, command: byte, payload: seq<byte>)
    requires id < Pow256(4)
    ensures DecodeRequest(RequestBytes(id, command, payload)) == Some(Request(id, command, payload))
  {
    var m := RequestBytes(id, command, payload);
    assert m[..4] == ToBE(id, 4);
    assert m[5..] == payload;
    FromToBE(id, 4);
  }

  /** The reply layout: echoed transaction id and command, error code, optional data. */
  function ReplyBytes(id: nat, command: byte, errorCode: byte, data: seq<byte>): (r: seq<byte>)
    requires id < Pow256(4)
    ensures |r| == 6 + |data| && r[..4] == ToBE(id, 4) && r[4] == command && r[5] == errorCode
    ensures r[6..] == data
  {
    ToBE(id, 4) + [command, errorCode] + data
  }
}
