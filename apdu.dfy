/** The APDU layer: a command APDU (ISO/IEC 7816-4 section 5.1) wrapped for
    the reader's data-exchange operation, and the split of the reader's
    answer into the response data and the status trailer SW1 SW2. */
module Apdu {
  import opened Bytes
  import opened Serial

  /** The status trailer of a successful command. */
  const Sw1Ok: byte := 0x90
  const Sw2Ok: byte := 0x00

  /** The reader's data-exchange operation and target number that prefix
      every command APDU. */
  const Exchange: seq<byte> := [0x40, 0x01]

  /** A command APDU: class, instruction, parameters, command data (its
      length is Lc, absent when zero) and the optional expected length Le. */
  datatype Command = Command(cla: byte, ins: byte, p1: byte, p2: byte, data: seq<byte>, le: Option<byte>)

  // ---------------------------------------------------------------------
  // Commands (apduSendCommand)
  // ---------------------------------------------------------------------

  /** The octets of a command as apduSendCommand lays them out:
      `40 01 CLA INS P1 P2`, then `Lc` and the data when there is data, then
      `Le` when it is present. */
  function Envelope(c: Command): (e: seq<byte>)
    requires |c.data| < 256
    ensures |e| == 6 + |c.data| + (if |c.data| > 0 then 1 else 0) + (if c.le.Some? then 1 else 0)
    ensures e[..6] == Exchange + [c.cla, c.ins, c.p1, c.p2]
    ensures c.data != [] ==> e[6] == |c.data| && e[7..7 + |c.data|] == c.data
    ensures c.le.Some? ==> e[|e| - 1] == c.le.value
  {
    var header := Exchange + [c.cla, c.ins, c.p1, c.p2];
    var body := if c.data == [] then [] else [|c.data| as byte] + c.data;
    var trailer := if c.le.Some? then [c.le.value] else [];
    assert (header + body + trailer)[..6] == header;
    header + body + trailer
  }

  /** The command that the octets `e` lay out, if any: after the six
      leading octets, nothing, a lone Le, Lc and the data, or Lc, the data
      and Le. */
  function ParseEnvelope(e: seq<byte>): (r: Option<Command>)
    ensures r.Some? ==> |r.value.data| < 256
  {
    if |e| < 6 || e[..2] != Exchange then None
    else
      var body := e[6..];
      if |body| == 0 then Some(Command(e[2], e[3], e[4], e[5], [], None))
      else if |body| == 1 then Some(Command(e[2], e[3], e[4], e[5], [], Some(body[0])))
      else
        var lc := body[0] as nat;
        if lc == 0 then None
        else if |body| == 1 + lc then Some(Command(e[2], e[3], e[4], e[5], body[1..], None))
        else if |body| == 2 + lc then Some(Command(e[2], e[3], e[4], e[5], body[1..1 + lc], Some(body[1 + lc])))
        else None
  }

  /** Every command is read back from its envelope. */
  lemma ParseEnvelopeOfEnvelope(c: Command)
    requires |c.data| < 256
    ensures ParseEnvelope(Envelope(c)) == Some(c)
  {
    var e := Envelope(c);
    assert e[..2] == Exchange;
    var body := e[6..];
    if c.data != [] {
      assert body[0] == |c.data|;
      assert body[1..1 + |c.data|] == c.data;
      if c.le.None? {
        assert body[1..] == c.data;
      } else {
        assert body[1 + |c.data|] == c.le.value;
      }
    }
  }

  /** Octets read as a command are exactly the envelope of the command read
      from them. */
  lemma EnvelopeOfParseEnvelope(e: seq<byte>)
    requires ParseEnvelope(e).Some?
    ensures Envelope(ParseEnvelope(e).value) == e
  {
    var c := ParseEnvelope(e).value;
    var body := e[6..];
    var header := Exchange + [c.cla, c.ins, c.p1, c.p2];
    assert e[..6] == header;
    if |body| >= 2 {
      assert body == [body[0]] + c.data + (if c.le.Some? then [c.le.value] else []);
    }
    assert e == e[..6] + body;
  }

  /** apduSendCommand: computes the envelope length in an int, fills a
      buffer of that size by index and hands it to sendCommand, whose length
      parameter is a uint8_t: the length is reduced modulo 256 there. */
  method ApduSendCommand(cla: byte, ins: byte, p1: byte, p2: byte, lc: byte, data: seq<byte>,
                         le: byte, isLePresent: bool) returns (sent: seq<byte>)
    requires |data| == lc
    ensures var e := Envelope(Command(cla, ins, p1, p2, data, if isLePresent then Some(le) else None));
      sent == CommandFrame(e[..|e| % 256])
  {
    var cmdlen := |Exchange| + 4 + lc;
    if isLePresent {
      cmdlen := cmdlen + 1;
    }
    if lc > 0 {
      cmdlen := cmdlen + 1;
    }
    var c := Command(cla, ins, p1, p2, data, if isLePresent then Some(le) else None);
    var buffer := new byte[cmdlen];
    WriteEnvelope(buffer, c);
    sent := SendCommand(buffer[..cmdlen % 256]);
  }

  /** The filling of apduSendCommand's buffer, octet by octet: the header,
      then Lc and a copy of the data when there is data, then Le last. */
  method WriteEnvelope(buffer: array<byte>, c: Command)
    requires |c.data| < 256 && buffer.Length == |Envelope(c)|
    modifies buffer
    ensures buffer[..] == Envelope(c)
  {
    var n := |c.data|;
    buffer[0] := 0x40;
    buffer[1] := 0x01;
    buffer[2] := c.cla;
    buffer[3] := c.ins;
    buffer[4] := c.p1;
    buffer[5] := c.p2;
    assert buffer[..6] == Exchange + [c.cla, c.ins, c.p1, c.p2];
    if n > 0 {
      buffer[6] := n;
      CopyInto(buffer, 7, c.data);
    }
    if c.le.Some? {
      buffer[buffer.Length - 1] := c.le.value;
    }
    EnvelopeFromParts(buffer[..], c);
  }

  /** Envelope's length and the positions of its parts determine it. */
  lemma EnvelopeFromParts(b: seq<byte>, c: Command)
    requires |c.data| < 256 && |b| == |Envelope(c)|
    requires b[..6] == Exchange + [c.cla, c.ins, c.p1, c.p2]
    requires c.data != [] ==> b[6] == |c.data| && b[7..7 + |c.data|] == c.data
    requires c.le.Some? ==> b[|b| - 1] == c.le.value
    ensures b == Envelope(c)
  {
    var e := Envelope(c);
    forall k | 0 <= k < |b|
      ensures b[k] == e[k]
    {
      if k < 6 {
        assert b[k] == b[..6][k] && e[k] == e[..6][k];
      } else if c.data != [] && 7 <= k < 7 + |c.data| {
        assert b[k] == b[7..7 + |c.data|][k - 7] && e[k] == e[7..7 + |c.data|][k - 7];
      }
    }
  }

  /** A command whose envelope fits the one-octet length is sent whole,
      inside a command frame. */
  lemma EnvelopeSentWhole(c: Command)
    requires |c.data| <= 247
    ensures |Envelope(c)| < 256
    ensures CommandFrame(Envelope(c)[..|Envelope(c)| % 256]) == [TermCommand, |Envelope(c)|] + Envelope(c)
  {
    assert Envelope(c)[..|Envelope(c)|] == Envelope(c);
  }

  // ---------------------------------------------------------------------
  // Responses (apduWaitForResponse)
  // ---------------------------------------------------------------------

  /** What apduWaitForResponse makes of the reader's answer. `Refused`: the
      reader's result code was not OK; `NoTrailer`: the payload is too short
      to hold SW1 SW2; `Answered`: the trailer, and the response data when
      the caller's capacity can hold it. `Silent`: no answer ever came, and
      the source is still waiting. */
  datatype Answer =
    | Refused(code: int)
    | NoTrailer
    | Answered(sw1: byte, sw2: byte, data: Option<seq<byte>>)
    | Silent

  /** The split of a frame result `(res, payload)` for a caller with room for
      `capacity` octets of response data. */
  function Interpret(res: int, payload: seq<byte>, capacity: nat): (a: Answer)
    ensures a.Refused? <==> res != TermOk
    ensures a.Refused? ==> a.code == res
    ensures a.NoTrailer? <==> res == TermOk && |payload| < 2
    ensures a.Answered? ==> (a.data.Some? <==> capacity >= |payload| - 2)
    ensures !a.Silent?
  {
    if res != TermOk then Refused(res)
    else if |payload| < 2 then NoTrailer
    else
      var n := |payload| - 2;
      Answered(payload[n], payload[n + 1], if capacity >= n then Some(payload[..n]) else None)
  }

  /** The answer to the outcome of waiting for the reader's frame. */
  function Respond(r: Reception, capacity: nat): (a: Answer)
    ensures a.Silent? <==> r.Starved?
  {
    match r
    case Starved => Silent
    case Response(code, payload) => Interpret(code, payload, capacity)
    case _ => Interpret(Status(r), [], capacity)
  }

  /** The response counts as success exactly for the trailer 90 00. */
  function IsSuccess(a: Answer): (ok: bool)
    ensures ok <==> a.Answered? && a.sw1 == 0x90 && a.sw2 == 0x00
  {
    a.Answered? && a.sw1 == Sw1Ok && a.sw2 == Sw2Ok
  }

  /** The value apduWaitForResponse returns. */
  function ResultCode(a: Answer): (res: int)
    requires !a.Silent?
    ensures a.Refused? ==> res == a.code
    ensures !a.Refused? ==> res == TermOk
  {
    if a.Refused? then a.code else TermOk
  }

  /** `*reslen` after the call, for a caller that offered `capacity`: zero
      when the reader refused, the data length when the data was copied,
      and unchanged otherwise. */
  function ResponseLength(a: Answer, capacity: nat): (n: nat)
    ensures a.Refused? ==> n == 0
    ensures a.Answered? && a.data.Some? ==> n == |a.data.value|
    ensures !a.Refused? && !(a.Answered? && a.data.Some?) ==> n == capacity
  {
    match a
    case Refused(_) => 0
    case Answered(_, _, Some(d)) => |d|
    case _ => capacity
  }

  /** Data followed by a trailer is split back into the two. */
  lemma InterpretSplitsTrailer(data: seq<byte>, sw1: byte, sw2: byte, capacity: nat)
    ensures Interpret(TermOk, data + [sw1, sw2], capacity) ==
            Answered(sw1, sw2, if capacity >= |data| then Some(data) else None)
  {
    var p := data + [sw1, sw2];
    assert p[..|data|] == data;
  }

  /** An answer with data is the payload it came from, data then trailer. */
  lemma AnsweredJoinsBack(res: int, payload: seq<byte>, capacity: nat)
    requires Interpret(res, payload, capacity).Answered?
    ensures var a := Interpret(res, payload, capacity);
      payload == payload[..|payload| - 2] + [a.sw1, a.sw2] &&
      (a.data.Some? ==> payload == a.data.value + [a.sw1, a.sw2])
  {
  }

  /** apduWaitForResponse: waits for the reader's frame in a local buffer of
      BUFFER_SIZE octets, then reads the trailer from the last two payload
      octets and copies the data in front of it into `resdata` when the
      caller's capacity `reslen` can hold it. `newReslen` is the value left
      in `*reslen`. */
  method ApduWaitForResponse(chunks: seq<ReadResult>, resdata: array<byte>, reslen: nat)
    returns (a: Answer, newReslen: nat)
    requires reslen <= resdata.Length && reslen < 256
    modifies resdata
    ensures a == Respond(Await(chunks, BufferSize), reslen)
    ensures newReslen == ResponseLength(a, reslen)
    ensures a.Answered? && a.data.Some? ==> resdata[..|a.data.value|] == a.data.value
    ensures a.Answered? && a.data.Some? ==> resdata[|a.data.value|..] == old(resdata[|a.data.value|..])
    ensures !(a.Answered? && a.data.Some?) ==> resdata[..] == old(resdata[..])
    ensures resdata[reslen..] == old(resdata[reslen..])
  {
    var buffer := new byte[BufferSize];
    var r := WaitResponse(chunks, buffer, BufferSize);
    if r.Starved? {
      return Silent, reslen;
    }
    var res := Status(r);
    if res != TermOk {
      return Refused(res), 0;
    }
    var buflen := |r.payload|;
    if buflen < 2 {
      return NoTrailer, reslen;
    }
    assert buffer[..buflen] == r.payload;
    var sw1 := buffer[buflen - 2];
    var sw2 := buffer[buflen - 1];
    var data := buffer[..buflen - 2];
    assert data == r.payload[..buflen - 2];
    if reslen >= buflen - 2 {
      CopyInto(resdata, 0, data);
      assert resdata[reslen..] == resdata[|data|..][reslen - |data|..];
      return Answered(sw1, sw2, Some(data)), buflen - 2;
    }
    return Answered(sw1, sw2, None), reslen;
  }

  /** A reader answer `0A, |d| + 2, d, SW1, SW2`, split into chunks in any
      way that keeps the code and the length in the first, gives the trailer
      and, when the capacity allows, the data `d`. */
  lemma ResponseReassembled(cs: seq<seq<byte>>, rest: seq<ReadResult>, d: seq<byte>, sw1: byte, sw2: byte,
                            capacity: nat)
    requires |d| + 2 <= BufferSize && cs != [] && |cs[0]| >= 2
    requires Flatten(cs) == [TermOk, |d| + 2] + d + [sw1, sw2]
    ensures Respond(Await(AsReads(cs) + rest, BufferSize), capacity) ==
            Answered(sw1, sw2, if capacity >= |d| then Some(d) else None)
    ensures IsSuccess(Respond(Await(AsReads(cs) + rest, BufferSize), capacity)) <==> sw1 == Sw1Ok && sw2 == Sw2Ok
  {
    var p := d + [sw1, sw2];
    assert [TermOk, |d| + 2] + d + [sw1, sw2] == [TermOk, |p|] + p;
    FrameReassembled(cs, rest, TermOk, p, BufferSize);
    assert p[..Min(|p|, BufferSize)] == p;
    InterpretSplitsTrailer(d, sw1, sw2, capacity);
  }

  // ---------------------------------------------------------------------
  // The trailer of apdu.c:154-155 and 166-169 as written
  // ---------------------------------------------------------------------

  /** The index SW1 is read from, whether the data is copied, and the new
      `*reslen`, for a payload of `buflen` octets and a capacity `reslen`:
      `buflen - 2` is an int, stored back into a uint8_t. With a trailer
      present these are the trailer's index, the capacity test and the data
      length; a payload shorter than the trailer gives an index before the
      buffer, a copy into any capacity and a length of at least 254. */
  function TrailerAsWritten(buflen: byte, reslen: byte): (r: (int, bool, byte))
    ensures buflen >= 2 ==> r == (buflen - 2, reslen >= buflen - 2, buflen - 2)
    ensures buflen < 2 ==> r.0 < 0 && r.1 && r.2 >= 254
  {
    var n := buflen - 2;
    (n, reslen >= n, n % 256)
  }

  /** An empty payload (the reader frame `0A 00`) makes the source read SW1
      two octets before its buffer and copy 254 octets to a caller that
      offered room for none. */
  lemma TrailerAsWrittenEmptyPayload()
    ensures TrailerAsWritten(0, 0) == (-2, true, 254)
  {
  }

  /** The same frame, in the model, gives no trailer and leaves the caller's
      data and length alone. */
  lemma EmptyPayloadHasNoTrailer(capacity: nat)
    ensures Await([Received([TermOk, 0x00])], BufferSize) == Response(TermOk, [])
    ensures Respond(Await([Received([TermOk, 0x00])], BufferSize), capacity) == NoTrailer
    ensures ResponseLength(NoTrailer, capacity) == capacity
  {
    assert [TermOk, 0x00][2..] == [];
  }
}
