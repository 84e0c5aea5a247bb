/** The host side of the bus (bull.py): the `Bull` object builds read and
    write requests, sends them over the serial port and checks the reply
    that comes back.

    The serial port is two byte streams: `sent`, everything written to it,
    and `rx`, the bytes that arrive before the read timeout runs out. A read
    of `n` bytes takes what has arrived, at most `n`. */
module HostBull {
  import opened Bytes
  import opened Frame

  /** A Python integer that `bytes([...])` accepts. */
  predicate IsByte(x: int)
  {
    0 <= x < 256
  }

  /** The value handed to `Bull.write`: a `bytes` object, or an integer that
      is sent as a single byte. */
  datatype Value = Raw(bytes: seq<byte>) | Number(n: int)

  /** The dictionary `serialRead` returns with `full_data` set. */
  datatype Reply = Reply(
    address: byte, command: byte, parameter: byte, length: byte,
    data: seq<byte>, checksum: byte, ok: bool, raw: seq<byte>)

  /** What `serialRead` returns: `None`; the short dictionary holding only
      `ok` (false) and `raw`; the full dictionary; or the payload alone. */
  datatype Response = Missing | TooShort(raw: seq<byte>) | Full(reply: Reply) | Data(data: seq<byte>)

  /** The checks `serialRead` makes on a response of at least five bytes:
      the checksum, the announced length, and the command of an error
      reply. */
  function Parse(response: seq<byte>): (r: Reply)
    requires |response| >= 5
    ensures r.raw == response && r.data == response[4..|response| - 1]
    ensures r.address == response[0] && r.command == response[1]
    ensures r.parameter == response[2] && r.length == response[3]
    ensures r.ok <==> IsBull(response) && SumMatches(response) && |response| == response[3] as int + 5 && response[1] != CmdError
  {
    var ok := Sum8(response[..|response| - 1]) == response[|response| - 1]
      && response[3] as int + 5 == |response| && response[1] != 0xFF;
    Reply(response[0], response[1], response[2], response[3],
          response[4..|response| - 1], response[|response| - 1], ok, response)
  }

  /** What `serialRead` makes of the bytes it received. */
  function Respond(response: seq<byte>, fullData: bool): (r: Response)
    ensures |response| < 5 ==> r == if fullData then TooShort(response) else Missing
    ensures |response| >= 5 && fullData ==> r == Full(Parse(response))
    ensures |response| >= 5 && !fullData ==> r == Data(response[4..|response| - 1])
  {
    if |response| < 5 then
      if fullData then TooShort(response) else Missing
    else if fullData then Full(Parse(response))
    else Data(response[4..|response| - 1])
  }

  /** The bytes `serialRead` takes from what arrived: five, then as many more
      as the length byte announces, each read cut short by the timeout. */
  function Arrived(rx: seq<byte>): (r: seq<byte>)
    ensures r <= rx
    ensures |rx| < 5 ==> r == rx
    ensures |rx| >= 5 ==> |r| == Min(|rx|, rx[3] as int + 5)
  {
    if |rx| < 5 then rx else rx[..Min(|rx|, rx[3] as int + 5)]
  }

  /** When the first read of five bytes comes back short, or announces no
      data, it is all `serialRead` takes. */
  lemma ArrivedHeader(rx0: seq<byte>, header: seq<byte>, rx1: seq<byte>)
    requires header == rx0[..Min(5, |rx0|)] && rx1 == rx0[|header|..]
    requires |header| < 5 || header[3] == 0
    ensures Arrived(rx0) == header && rx0 == header + rx1
  {
  }

  /** When the header announces data, the second read takes what arrived
      of it. */
  lemma ArrivedBody(rx0: seq<byte>, header: seq<byte>, rx1: seq<byte>, more: seq<byte>, rx2: seq<byte>)
    requires header == rx0[..Min(5, |rx0|)] && rx1 == rx0[|header|..]
    requires |header| == 5 && header[3] > 0
    requires more == rx1[..Min(header[3] as int, |rx1|)] && rx2 == rx1[|more|..]
    ensures Arrived(rx0) == header + more && rx0 == header + more + rx2
  {
    assert rx0 == header + rx1;
    assert rx1 == more + rx2;
    assert rx0[..5 + |more|] == header + more;
  }

  /** The request `Bull.read` builds, or None when `bytes([...])` raises
      because a header value is not a byte. */
  function ReadRequest(address: int, parameter: int, data: seq<byte>): (r: Option<seq<byte>>)
    ensures r.Some? <==> IsByte(address) && IsByte(parameter) && |data| < 256
    ensures r.Some? ==> r.value == Frame.Frame(address, CmdRead, parameter, data)
  {
    if IsByte(address) && IsByte(parameter) && |data| < 256 then
      Some(Frame.Frame(address, CmdRead, parameter, data))
    else None
  }

  /** The payload `Bull.write` sends for a value: a `bytes` object as it
      is, an integer as one byte, None when the integer is not a byte. */
  function Wrap(value: Value): (r: Option<seq<byte>>)
    ensures value.Raw? ==> r == Some(value.bytes)
    ensures value.Number? ==> (r.Some? <==> IsByte(value.n))
    ensures value.Number? && r.Some? ==> r.value == [value.n]
  {
    match value
    case Raw(b) => Some(b)
    case Number(n) => if IsByte(n) then Some([n]) else None
  }

  /** The request `Bull.write` builds, or None when it raises. */
  function WriteRequest(address: int, parameter: int, value: Value): (r: Option<seq<byte>>)
    ensures r.Some? <==> IsByte(address) && IsByte(parameter) && Wrap(value).Some? && |Wrap(value).value| < 256
    ensures r.Some? ==> r.value == Frame.Frame(address, CmdWrite, parameter, Wrap(value).value)
  {
    match Wrap(value)
    case None => None
    case Some(payload) =>
      if IsByte(address) && IsByte(parameter) && |payload| < 256 then
        Some(Frame.Frame(address, CmdWrite, parameter, payload))
      else None
  }

  /** A request built by `read` or `write` is a complete frame with a
      matching checksum, and a unit sees in it the command, the parameter
      and exactly the payload the host meant. */
  lemma RequestsAreFrames(address: int, parameter: int, data: seq<byte>, value: Value)
    ensures ReadRequest(address, parameter, data).Some? ==>
      var f := ReadRequest(address, parameter, data).value;
      && IsBull(f) && SumMatches(f) && |f| == f[3] as int + 5
      && f[0] == address && f[1] == CmdRead && f[2] == parameter && f[4..4 + f[3]] == data
    ensures WriteRequest(address, parameter, value).Some? ==>
      var f := WriteRequest(address, parameter, value).value;
      && IsBull(f) && SumMatches(f) && |f| == f[3] as int + 5
      && f[0] == address && f[1] == CmdWrite && f[2] == parameter && f[4..4 + f[3]] == Wrap(value).value
  {
    if IsByte(address) && IsByte(parameter) && |data| < 256 {
      FrameWellFormed(address, CmdRead, parameter, data);
    }
    if WriteRequest(address, parameter, value).Some? {
      FrameWellFormed(address, CmdWrite, parameter, Wrap(value).value);
    }
  }

  /** A reply frame from a unit, received whole, is accepted exactly when it
      is not an error reply, and `serialRead` hands back the fields and the
      payload the unit put in it; an error reply still carries its text. */
  lemma {:induction false} ReplyRoundTrip(address: byte, command: byte, param: byte, payload: seq<byte>, rest: seq<byte>)
    requires |payload| < 256
    ensures var f := Frame.Frame(address, command, param, payload);
      && Arrived(f + rest) == f
      && Parse(f) == Reply(address, command, param, |payload|, payload, f[|f| - 1], command != CmdError, f)
      && Respond(Arrived(f + rest), false) == Data(payload)
  {
    var f := Frame.Frame(address, command, param, payload);
    FrameWellFormed(address, command, param, payload);
    assert (f + rest)[3] == f[3];
    assert (f + rest)[..|f|] == f;
  }

  /** A `Reply` that is ok came from a complete, uncorrupted, non-error
      frame, and the frame is rebuilt from the reply's fields. */
  lemma OkReplyIsFrame(response: seq<byte>)
    requires |response| >= 5 && Parse(response).ok
    ensures var r := Parse(response);
      response == Frame.Frame(r.address, r.command, r.parameter, r.data) && r.command != CmdError
  {
    var r := Parse(response);
    assert response == [r.address, r.command, r.parameter, r.length] + r.data + [r.checksum];
    assert response[..|response| - 1] == [r.address, r.command, r.parameter, r.length] + r.data;
  }

  class Host {
    /** Everything written to the serial port. */
    var sent: seq<byte>
    /** The bytes that arrive before the read timeout, not yet read. */
    var rx: seq<byte>

    constructor (incoming: seq<byte>)
      ensures sent == [] && rx == incoming
    {
      sent := [];
      rx := incoming;
    }

    /** `serial.write` */
    method Send(bytes: seq<byte>)
      modifies this`sent
      ensures sent == old(sent) + bytes
    {
      sent := sent + bytes;
    }

    /** `serial.read(n)` */
    method Receive(n: nat) returns (got: seq<byte>)
      modifies this`rx
      ensures got == old(rx)[..Min(n, |old(rx)|)]
      ensures rx == old(rx)[|got|..]
    {
      var k := if n <= |rx| then n else |rx|;
      got := rx[..k];
      rx := rx[k..];
    }

    /** `Bull.checksum`: an unbounded sum, reduced modulo 256 at the end. */
    static method Checksum(data: seq<byte>) returns (r: byte)
      ensures r == Sum8(data)
    {
      var sum: nat := 0;
      var i := 0;
      while i < |data|
        invariant 0 <= i <= |data|
        invariant sum == Sum(data[..i])
      {
        assert data[..i + 1][..i] == data[..i];
        sum := sum + data[i];
        i := i + 1;
      }
      assert data[..i] == data;
      Sum8IsSumMod(data);
      r := sum % 0x100;
    }

    /** `Bull.serialRead` */
    method SerialRead(fullData: bool) returns (r: Response)
      modifies this`rx
      ensures r == Respond(Arrived(old(rx)), fullData)
      ensures old(rx) == Arrived(old(rx)) + rx
    {
      var response := Receive(5);
      if |response| < 5 {
        ArrivedHeader(old(rx), response, rx);
        if fullData {
          return TooShort(response);
        }
        return Missing;
      }
      if response[3] > 0 {
        ghost var rx1 := rx;
        var more := Receive(response[3]);
        ArrivedBody(old(rx), response, rx1, more, rx);
        response := response + more;
      } else {
        ArrivedHeader(old(rx), response, rx);
      }
      var reply := Check(response);
      if fullData {
        return Full(reply);
      }
      return Data(reply.data);
    }

    /** The fields and the checks of `Bull.serialRead`, on a response of at
        least five bytes: `ok` starts true and each failed check clears it. */
    static method Check(response: seq<byte>) returns (r: Reply)
      requires |response| >= 5
      ensures r == Parse(response)
    {
      var address, command, parameter, length := response[0], response[1], response[2], response[3];
      var data := response[4..|response| - 1];
      var checksum := response[|response| - 1];
      var ok := true;
      var sum := Checksum(response[..|response| - 1]);
      if sum != checksum {
        ok := false;
      }
      if length as int + 5 != |response| {
        ok := false;
      }
      if command == 0xFF {
        ok := false;
      }
      r := Reply(address, command, parameter, length, data, checksum, ok, response);
    }

    /** `Bull.read`: None when building the request raises, and then nothing
        is sent or read. */
    method Read(address: int, parameter: int, data: seq<byte>, fullData: bool) returns (r: Option<Response>)
      modifies this
      ensures ReadRequest(address, parameter, data).None? ==> r.None? && sent == old(sent) && rx == old(rx)
      ensures ReadRequest(address, parameter, data).Some? ==>
        && sent == old(sent) + ReadRequest(address, parameter, data).value
        && r == Some(Respond(Arrived(old(rx)), fullData))
        && old(rx) == Arrived(old(rx)) + rx
    {
      if !(IsByte(address) && IsByte(parameter) && |data| < 256) {
        return None;
      }
      var msg := [address as byte, 0x01, parameter as byte, |data| as byte];
      msg := msg + data;
      var sum := Checksum(msg);
      msg := msg + [sum];
      Send(msg);
      var response := SerialRead(fullData);
      r := Some(response);
    }

    /** `Bull.write`: None when building the request raises, and then
        nothing is sent or read. */
    method Write(address: int, parameter: int, value: Value, fullData: bool) returns (r: Option<Response>)
      modifies this
      ensures WriteRequest(address, parameter, value).None? ==> r.None? && sent == old(sent) && rx == old(rx)
      ensures WriteRequest(address, parameter, value).Some? ==>
        && sent == old(sent) + WriteRequest(address, parameter, value).value
        && r == Some(Respond(Arrived(old(rx)), fullData))
        && old(rx) == Arrived(old(rx)) + rx
    {
      var payload: seq<byte>;
      match value {
        case Raw(b) =>
          payload := b;
        case Number(n) =>
          if !IsByte(n) {
            return None;
          }
          payload := [n];
      }
      if !(IsByte(address) && IsByte(parameter) && |payload| < 256) {
        return None;
      }
      var msg := [address as byte, 0x81, parameter as byte, |payload| as byte] + payload;
      var sum := Checksum(msg);
      msg := msg + [sum];
      Send(msg);
      var response := SerialRead(fullData);
      r := Some(response);
    }
  }
}
