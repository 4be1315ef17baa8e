/** The serial frame layer between the terminal and the card reader.

    Every message on the line is a frame: a result or operation code, the
    length of the payload, then the payload. The reader's answer arrives in
    chunks of arbitrary size; the operating system's `read` is modelled as
    the sequence of results it returns, one per call. */
module Serial {
  import opened Bytes

  /** The reader's result code for a successful operation. */
  const TermOk: byte := 0x0A
  /** The operation code of a frame sent by the terminal. */
  const TermCommand: byte := 0x0C
  /** The capacity of the reception buffer, and the most one `read` returns. */
  const BufferSize: nat := 255

  function Min(a: nat, b: nat): (m: nat)
    ensures m <= a && m <= b && (m == a || m == b)
  {
    if a <= b then a else b
  }

  // ---------------------------------------------------------------------
  // Sending (sendCommand)
  // ---------------------------------------------------------------------

  /** The frame sendCommand writes for `payload`: nothing for an empty
      payload, otherwise the command code, the payload length and the
      payload. */
  function CommandFrame(payload: seq<byte>): (f: seq<byte>)
    requires |payload| < 256
    ensures payload == [] ==> f == []
    ensures payload != [] ==> |f| == |payload| + 2 && f[0] == TermCommand && f[1] == |payload| && f[2..] == payload
  {
    if payload == [] then [] else [TermCommand, |payload|] + payload
  }

  /** sendCommand: fills a buffer of `len + 2` octets by index and returns
      what is written to the port. */
  method SendCommand(buffer: seq<byte>) returns (sent: seq<byte>)
    requires |buffer| < 256
    ensures sent == CommandFrame(buffer)
  {
    var len := |buffer|;
    if len == 0 {
      return [];
    }
    var cmdbuffer := new byte[len + 2];
    cmdbuffer[0] := TermCommand;
    cmdbuffer[1] := len;
    CopyInto(cmdbuffer, 2, buffer);
    sent := cmdbuffer[..];
  }

  // ---------------------------------------------------------------------
  // Receiving (waitResponse)
  // ---------------------------------------------------------------------

  type Failure = x: int | x < 0 witness -1

  /** What one call of `read` returns: the octets received (none when the
      line stayed silent) or a negative status. */
  datatype ReadResult = Received(octets: seq<byte>) | Failed(status: Failure)

  /** The outcome of waiting for one frame. `Response` holds the frame's
      code and the payload octets kept in the caller's buffer. `Starved`
      stands for a line that stays silent for good: the source keeps
      calling `read` and never returns. */
  datatype Reception =
    | Response(code: byte, payload: seq<byte>)
    | ReadError(status: Failure)
    | Malformed
    | Starved

  /** The value waitResponse returns for an outcome. */
  function Status(r: Reception): (s: int)
    requires !r.Starved?
    ensures r.Response? ==> s == r.code
    ensures r.ReadError? ==> s == r.status
    ensures r.Malformed? ==> s == -1
  {
    match r
    case Response(code, _) => code
    case ReadError(status) => status
    case Malformed => -1
  }

  /** The frame reassembled from `chunks` into a buffer of capacity `max`.
      Silent chunks are retried and a failed read ends the wait with its
      status. The first chunk must hold at least the code and the length;
      when its payload octets exceed the capacity, the first `max` of them
      are kept and the wait ends. Otherwise the wait goes on until the
      declared length has arrived. */
  function Await(chunks: seq<ReadResult>, max: nat): (r: Reception)
    ensures r.Response? ==> |r.payload| <= max
    decreases |chunks|
  {
    if chunks == [] then Starved
    else match chunks[0]
      case Failed(status) => ReadError(status)
      case Received(c) =>
        if |c| == 0 then Await(chunks[1..], max)
        else if |c| < 2 then Malformed
        else if |c| - 2 > max then Response(c[0], c[2..2 + max])
        else if |c| - 2 >= c[1] then Response(c[0], c[2..])
        else Gather(chunks[1..], c[0], c[1], max, c[2..], |c| - 2)
  }

  /** The rest of a frame whose first `received` payload octets have
      arrived, of which `stored` are kept. Each further chunk is kept as far
      as the capacity allows, and the wait ends once `expected` octets have
      arrived. */
  function Gather(chunks: seq<ReadResult>, code: byte, expected: nat, max: nat,
                  stored: seq<byte>, received: nat): (r: Reception)
    requires |stored| == Min(received, max)
    ensures r.Response? ==> |r.payload| <= max
    decreases |chunks|
  {
    if chunks == [] then Starved
    else match chunks[0]
      case Failed(status) => ReadError(status)
      case Received(b) =>
        if |b| == 0 then Gather(chunks[1..], code, expected, max, stored, received)
        else
          var kept := stored + b[..Min(|b|, max - |stored|)];
          if received + |b| >= expected then Response(code, kept)
          else Gather(chunks[1..], code, expected, max, kept, received + |b|)
  }

  /** waitResponse: calls `read` until a frame is complete, copying each
      chunk's payload octets into `buffer` after those already there, never
      beyond the capacity `maxSize`. */
  method WaitResponse(chunks: seq<ReadResult>, buffer: array<byte>, maxSize: nat) returns (r: Reception)
    requires maxSize <= buffer.Length && maxSize < 256
    modifies buffer
    ensures r == Await(chunks, maxSize)
    ensures r.Response? ==> buffer[..|r.payload|] == r.payload
    ensures r.Response? ==> buffer[|r.payload|..] == old(buffer[|r.payload|..])
    ensures buffer[maxSize..] == old(buffer[maxSize..])
  {
    ghost var initial := buffer[..];
    var i := 0;
    var incoming := false;
    var code: byte := 0;
    var expected: nat := 0;
    var len: nat := 0;
    var received: nat := 0;
    ghost var stored: seq<byte> := [];
    r := Starved;
    while i < |chunks|
      invariant 0 <= i <= |chunks| && len == |stored| <= maxSize
      invariant buffer[..len] == stored
      invariant forall k :: len <= k < buffer.Length ==> buffer[k] == initial[k]
      invariant !incoming ==> Await(chunks, maxSize) == Await(chunks[i..], maxSize)
      invariant !incoming ==> len == 0
      invariant incoming ==> len == Min(received, maxSize)
      invariant incoming ==> Await(chunks, maxSize) == Gather(chunks[i..], code, expected, maxSize, stored, received)
      decreases |chunks| - i
    {
      var chunk := chunks[i];
      match chunk
      case Failed(status) =>
        NextChunk(chunks, i, maxSize);
        r := ReadError(status);
        break;
      case Received(c) =>
        var n := |c|;
        if n == 0 {
          NextChunk(chunks, i, maxSize);
          if incoming {
            GatherStep(chunks, i, code, expected, maxSize, stored, received);
          }
        } else if !incoming {
          incoming := true;
          NextChunk(chunks, i, maxSize);
          if n < 2 {
            r := Malformed;
            break;
          }
          expected := c[1];
          code := c[0];
          len := Store(buffer, 0, c[2..], maxSize, stored, initial);
          stored := c[2..][..len];
          if n - 2 > maxSize {
            // the buffer is too small: keep what fits and stop waiting
            assert stored == c[2..2 + maxSize];
            r := Response(code, buffer[..len]);
            break;
          }
          assert stored == c[2..];
          if len >= expected {
            r := Response(code, buffer[..len]);
            break;
          }
          received := len;
        } else {
          GatherStep(chunks, i, code, expected, maxSize, stored, received);
          var newLen := Store(buffer, len, c, maxSize, stored, initial);
          stored := stored + c[..Min(n, maxSize - len)];
          len := newLen;
          received := received + n;
          if received >= expected {
            r := Response(code, buffer[..len]);
            break;
          }
        }
      i := i + 1;
    }
    Untouched(buffer[..], initial, len, maxSize);
  }

  /** Append, for a buffer that holds `stored` over the rest of `initial`:
      it then holds `stored` and the part of `chunk` kept over the rest. */
  method Store(buffer: array<byte>, len: nat, chunk: seq<byte>, maxSize: nat,
               ghost stored: seq<byte>, ghost initial: seq<byte>) returns (newLen: nat)
    requires len == |stored| <= maxSize <= buffer.Length == |initial|
    requires buffer[..len] == stored
    requires forall k :: len <= k < buffer.Length ==> buffer[k] == initial[k]
    modifies buffer
    ensures newLen == len + Min(|chunk|, maxSize - len) <= maxSize
    ensures buffer[..newLen] == stored + chunk[..Min(|chunk|, maxSize - len)]
    ensures forall k :: newLen <= k < buffer.Length ==> buffer[k] == initial[k]
  {
    newLen := Append(buffer, len, chunk, maxSize);
    forall k | newLen <= k < buffer.Length
      ensures buffer[k] == initial[k]
    {
      assert buffer[k] == buffer[newLen..][k - newLen];
      assert old(buffer[k]) == old(buffer[newLen..])[k - newLen];
    }
  }

  /** A buffer that agrees with `initial` from `len` on leaves that part,
      and so everything from the capacity on, as it was. */
  lemma Untouched(b: seq<byte>, initial: seq<byte>, len: nat, max: nat)
    requires len <= max <= |b| == |initial|
    requires forall k :: len <= k < |b| ==> b[k] == initial[k]
    ensures b[len..] == initial[len..] && b[max..] == initial[max..]
  {
    assert b[len..] == initial[len..];
  }

  /** Await, read from chunk `i` on, is one step of the loop. */
  lemma NextChunk(chunks: seq<ReadResult>, i: nat, max: nat)
    requires i < |chunks|
    ensures Await(chunks[i..], max) == match chunks[i]
      case Failed(status) => ReadError(status)
      case Received(c) =>
        if |c| == 0 then Await(chunks[i + 1..], max)
        else if |c| < 2 then Malformed
        else if |c| - 2 > max then Response(c[0], c[2..2 + max])
        else if |c| - 2 >= c[1] then Response(c[0], c[2..])
        else Gather(chunks[i + 1..], c[0], c[1], max, c[2..], |c| - 2)
  {
    assert chunks[i..][1..] == chunks[i + 1..];
  }

  /** Gather, read from chunk `i` on, is one step of the loop. */
  lemma GatherStep(chunks: seq<ReadResult>, i: nat, code: byte, expected: nat, max: nat,
                   stored: seq<byte>, received: nat)
    requires i < |chunks| && |stored| == Min(received, max)
    ensures Gather(chunks[i..], code, expected, max, stored, received) == match chunks[i]
      case Failed(status) => ReadError(status)
      case Received(b) =>
        if |b| == 0 then Gather(chunks[i + 1..], code, expected, max, stored, received)
        else
          var kept := stored + b[..Min(|b|, max - |stored|)];
          if received + |b| >= expected then Response(code, kept)
          else Gather(chunks[i + 1..], code, expected, max, kept, received + |b|)
  {
    assert chunks[i..][1..] == chunks[i + 1..];
  }

  /** The copy of one chunk into the buffer after the `len` octets already
      there: as many of its octets as the capacity `maxSize` leaves room for,
      and nothing at or past the capacity is written. Returns the number of
      octets the buffer now holds. */
  method Append(buffer: array<byte>, len: nat, chunk: seq<byte>, maxSize: nat) returns (newLen: nat)
    requires len <= maxSize <= buffer.Length
    modifies buffer
    ensures newLen == len + Min(|chunk|, maxSize - len) <= maxSize
    ensures buffer[..] == old(buffer[..len]) + chunk[..Min(|chunk|, maxSize - len)] + old(buffer[newLen..])
    ensures buffer[..newLen] == old(buffer[..len]) + chunk[..Min(|chunk|, maxSize - len)]
    ensures buffer[newLen..] == old(buffer[newLen..])
    ensures buffer[maxSize..] == old(buffer[maxSize..])
  {
    var n := Min(|chunk|, maxSize - len);
    CopyInto(buffer, len, chunk[..n]);
    newLen := len + n;
    assert buffer[maxSize..] == buffer[newLen..][maxSize - newLen..];
  }

  // ---------------------------------------------------------------------
  // Properties of the reassembly
  // ---------------------------------------------------------------------

  /** `k` reads that return no octets. */
  function Idle(k: nat): (s: seq<ReadResult>)
    ensures |s| == k && forall i :: 0 <= i < k ==> s[i] == Received([])
  {
    if k == 0 then [] else [Received([])] + Idle(k - 1)
  }

  /** Reads that return no octets are retried: they change nothing. */
  lemma {:induction false} IdleIgnored(k: nat, chunks: seq<ReadResult>, max: nat)
    ensures Await(Idle(k) + chunks, max) == Await(chunks, max)
  {
    if k > 0 {
      assert (Idle(k) + chunks)[0] == Received([]);
      assert (Idle(k) + chunks)[1..] == Idle(k - 1) + chunks;
      IdleIgnored(k - 1, chunks, max);
    } else {
      assert Idle(k) + chunks == chunks;
    }
  }

  /** A failed read before any octet arrives is the outcome, whatever
      follows it. */
  lemma FailureFirst(k: nat, status: Failure, rest: seq<ReadResult>, max: nat)
    ensures Await(Idle(k) + [Failed(status)] + rest, max) == ReadError(status)
  {
    assert Idle(k) + [Failed(status)] + rest == Idle(k) + ([Failed(status)] + rest);
    IdleIgnored(k, [Failed(status)] + rest, max);
  }

  /** A first chunk of a single octet is a malformed frame, whatever follows. */
  lemma ShortFirst(k: nat, b: byte, rest: seq<ReadResult>, max: nat)
    ensures Await(Idle(k) + [Received([b])] + rest, max) == Malformed
  {
    assert Idle(k) + [Received([b])] + rest == Idle(k) + ([Received([b])] + rest);
    IdleIgnored(k, [Received([b])] + rest, max);
  }

  /** The octets received before the first failed read, in arrival order. */
  function Stream(chunks: seq<ReadResult>): seq<byte>
  {
    if chunks == [] then []
    else match chunks[0]
      case Failed(_) => []
      case Received(b) => b + Stream(chunks[1..])
  }

  /** A frame's code is the first octet received, and the payload kept is
      the start of what follows the code and the length octet, in arrival
      order. */
  lemma {:induction false} AwaitPrefix(chunks: seq<ReadResult>, max: nat)
    requires Await(chunks, max).Response?
    ensures |Stream(chunks)| >= 2 && Await(chunks, max).code == Stream(chunks)[0]
    ensures Await(chunks, max).payload <= Stream(chunks)[2..]
    decreases |chunks|
  {
    var c := chunks[0].octets;
    var rest := chunks[1..];
    if |c| == 0 {
      AwaitPrefix(rest, max);
    } else {
      var s := Stream(chunks);
      assert s == c + Stream(rest);
      assert s[2..] == c[2..] + Stream(rest);
      if |c| - 2 > max {
      } else if |c| - 2 >= c[1] {
      } else {
        GatherPrefix(rest, c[0], c[1], max, c[2..], |c| - 2);
        var p := Await(chunks, max).payload;
        assert p == c[2..] + p[|c| - 2..];
      }
    }
  }

  lemma {:induction false} GatherPrefix(chunks: seq<ReadResult>, code: byte, expected: nat, max: nat,
                                         stored: seq<byte>, received: nat)
    requires |stored| == Min(received, max)
    requires Gather(chunks, code, expected, max, stored, received).Response?
    ensures var r := Gather(chunks, code, expected, max, stored, received);
      r.code == code && stored <= r.payload && r.payload[|stored|..] <= Stream(chunks)
    decreases |chunks|
  {
    var b := chunks[0].octets;
    var rest := chunks[1..];
    var p := Gather(chunks, code, expected, max, stored, received).payload;
    assert Stream(chunks) == b + Stream(rest);
    if |b| == 0 {
      GatherPrefix(rest, code, expected, max, stored, received);
      assert b + Stream(rest) == Stream(rest);
    } else {
      var t := Min(|b|, max - |stored|);
      var kept := stored + b[..t];
      if received + |b| < expected {
        GatherPrefix(rest, code, expected, max, kept, received + |b|);
        if t < |b| {
          assert |kept| == max;
          assert p == kept;
        } else {
          assert b[..t] == b;
          assert p[|stored|..] == b + p[|kept|..];
        }
      }
    }
  }

  /** Once a frame is complete, later reads are not consumed: the outcome
      does not depend on them. */
  lemma {:induction false} AwaitStops(chunks: seq<ReadResult>, more: seq<ReadResult>, max: nat)
    requires !Await(chunks, max).Starved?
    ensures Await(chunks + more, max) == Await(chunks, max)
    decreases |chunks|
  {
    assert (chunks + more)[0] == chunks[0];
    assert (chunks + more)[1..] == chunks[1..] + more;
    var c := chunks[0];
    if c.Received? && |c.octets| == 0 {
      AwaitStops(chunks[1..], more, max);
    } else if c.Received? && 2 <= |c.octets| && |c.octets| - 2 <= max && |c.octets| - 2 < c.octets[1] {
      var o := c.octets;
      GatherStops(chunks[1..], more, o[0], o[1], max, o[2..], |o| - 2);
    }
  }

  lemma {:induction false} GatherStops(chunks: seq<ReadResult>, more: seq<ReadResult>, code: byte,
                                        expected: nat, max: nat, stored: seq<byte>, received: nat)
    requires |stored| == Min(received, max)
    requires !Gather(chunks, code, expected, max, stored, received).Starved?
    ensures Gather(chunks + more, code, expected, max, stored, received) ==
            Gather(chunks, code, expected, max, stored, received)
    decreases |chunks|
  {
    assert (chunks + more)[0] == chunks[0];
    assert (chunks + more)[1..] == chunks[1..] + more;
    var c := chunks[0];
    if c.Received? {
      var b := c.octets;
      if |b| == 0 {
        GatherStops(chunks[1..], more, code, expected, max, stored, received);
      } else if received + |b| < expected {
        GatherStops(chunks[1..], more, code, expected, max,
                    stored + b[..Min(|b|, max - |stored|)], received + |b|);
      }
    }
  }

  /** A failed read while the wait is still going on, before any octet or
      in the middle of a frame, is the outcome, whatever follows it. */
  lemma {:induction false} FailureWhileWaiting(chunks: seq<ReadResult>, s: Failure,
                                                rest: seq<ReadResult>, max: nat)
    requires Await(chunks, max).Starved?
    ensures Await(chunks + [Failed(s)] + rest, max) == ReadError(s)
    decreases |chunks|
  {
    var more := [Failed(s)] + rest;
    assert chunks + [Failed(s)] + rest == chunks + more;
    if chunks != [] {
      assert (chunks + more)[0] == chunks[0];
      assert (chunks + more)[1..] == chunks[1..] + more;
      var o := chunks[0].octets;
      if |o| == 0 {
        FailureWhileWaiting(chunks[1..], s, rest, max);
        assert chunks[1..] + [Failed(s)] + rest == chunks[1..] + more;
      } else {
        GatherFailure(chunks[1..], s, rest, o[0], o[1], max, o[2..], |o| - 2);
        assert chunks[1..] + [Failed(s)] + rest == chunks[1..] + more;
      }
    }
  }

  lemma {:induction false} GatherFailure(chunks: seq<ReadResult>, s: Failure, rest: seq<ReadResult>,
                                          code: byte, expected: nat, max: nat, stored: seq<byte>, received: nat)
    requires |stored| == Min(received, max)
    requires Gather(chunks, code, expected, max, stored, received).Starved?
    ensures Gather(chunks + [Failed(s)] + rest, code, expected, max, stored, received) == ReadError(s)
    decreases |chunks|
  {
    var more := [Failed(s)] + rest;
    assert chunks + [Failed(s)] + rest == chunks + more;
    if chunks != [] {
      assert (chunks + more)[0] == chunks[0];
      assert (chunks + more)[1..] == chunks[1..] + more;
      assert chunks[1..] + [Failed(s)] + rest == chunks[1..] + more;
      var b := chunks[0].octets;
      if |b| == 0 {
        GatherFailure(chunks[1..], s, rest, code, expected, max, stored, received);
      } else {
        GatherFailure(chunks[1..], s, rest, code, expected, max,
                      stored + b[..Min(|b|, max - |stored|)], received + |b|);
      }
    }
  }

  /** The reads that return the chunks `cs`, one per call. */
  function AsReads(cs: seq<seq<byte>>): (rs: seq<ReadResult>)
    ensures |rs| == |cs| && forall i :: 0 <= i < |cs| ==> rs[i] == Received(cs[i])
  {
    if cs == [] then [] else [Received(cs[0])] + AsReads(cs[1..])
  }

  /** A frame `code, |p|, p` is reassembled to the first `max` octets of
      its payload however it is split into chunks, as long as the first
      chunk holds the code and the length; in particular to the whole
      payload when the capacity suffices. Reads after the frame are not
      consumed. */
  lemma FrameReassembled(cs: seq<seq<byte>>, rest: seq<ReadResult>, code: byte, p: seq<byte>, max: nat)
    requires |p| < 256 && cs != [] && |cs[0]| >= 2
    requires Flatten(cs) == [code, |p|] + p
    ensures Await(AsReads(cs) + rest, max) == Response(code, p[..Min(|p|, max)])
  {
    var c := cs[0];
    var f := [code, |p|] + p;
    assert f == c + Flatten(cs[1..]);
    assert c == f[..|c|] && Flatten(cs[1..]) == f[|c|..];
    assert c[0] == f[0] == code && c[1] == f[1] == |p|;
    assert c[2..] == f[2..|c|] == p[..|c| - 2];
    assert (AsReads(cs) + rest)[0] == Received(c);
    assert (AsReads(cs) + rest)[1..] == AsReads(cs[1..]) + rest;
    if |c| - 2 > max {
      assert c[2..2 + max] == f[2..2 + max] == p[..max];
    } else if |c| - 2 >= |p| {
      assert c[2..] == p;
    } else {
      assert Flatten(cs[1..]) == f[|c|..] == p[|c| - 2..];
      GatherFrame(cs[1..], rest, code, max, p, |c| - 2);
    }
  }

  lemma {:induction false} GatherFrame(cs: seq<seq<byte>>, rest: seq<ReadResult>, code: byte, max: nat,
                                        p: seq<byte>, k: nat)
    requires k < |p| && Flatten(cs) == p[k..]
    ensures Gather(AsReads(cs) + rest, code, |p|, max, p[..Min(k, max)], k) == Response(code, p[..Min(|p|, max)])
    decreases |cs|
  {
    var b := cs[0];
    var rs := AsReads(cs) + rest;
    assert rs[0] == Received(b);
    assert rs[1..] == AsReads(cs[1..]) + rest;
    assert p[k..] == b + Flatten(cs[1..]);
    if |b| == 0 {
      GatherFrame(cs[1..], rest, code, max, p, k);
    } else {
      assert b == p[k..k + |b|];
      ClipStep(p, k, b, max);
      if k + |b| < |p| {
        assert Flatten(cs[1..]) == p[k + |b|..];
        GatherFrame(cs[1..], rest, code, max, p, k + |b|);
      }
    }
  }

  /** Keeping as much of the next `|b|` payload octets as the capacity allows
      extends the kept prefix of the payload. */
  lemma ClipStep(p: seq<byte>, k: nat, b: seq<byte>, max: nat)
    requires k + |b| <= |p| && b == p[k..k + |b|]
    ensures p[..Min(k, max)] + b[..Min(|b|, max - Min(k, max))] == p[..Min(k + |b|, max)]
  {
    if k < max {
      assert p[..Min(k + |b|, max)] == p[..k] + p[k..Min(k + |b|, max)];
    }
  }

  /** A frame as sendCommand writes it, read back in one chunk, gives back
      the command code and the payload, clipped to the capacity. */
  lemma CommandFrameRoundTrip(payload: seq<byte>, rest: seq<ReadResult>, max: nat)
    requires 0 < |payload| < 256
    ensures Await([Received(CommandFrame(payload))] + rest, max) ==
            Response(TermCommand, payload[..Min(|payload|, max)])
  {
    var f := CommandFrame(payload);
    assert Flatten([f]) == f + Flatten([]);
    assert AsReads([f]) == [Received(f)];
    FrameReassembled([f], rest, TermCommand, payload, max);
  }

  // ---------------------------------------------------------------------
  // The append step of serial.c:152-159 as written
  // ---------------------------------------------------------------------

  /** The new `*len` and the octet count handed to memcpy when `n` octets
      arrive after `len` others, with `*len` a uint8_t and the count an int.
      As long as `*len` neither wraps nor has passed the capacity, this is
      the intended step: the count is what fits in the room left. */
  function AppendAsWritten(len: byte, n: nat, max: byte): (r: (byte, int))
    ensures len + n < 256 ==> r.0 == len + n
    ensures len + n < 256 && len <= max ==> r.1 == Min(n, max - len)
  {
    var newLen := (len + n) % 256;
    var count := if newLen > max then n - (newLen - max) else n;
    (newLen, count)
  }

  /** With 253 octets stored in a 255-octet buffer, a chunk of five wraps
      `*len` to 2, so all five are copied from index 253: the last three land
      past the end of the buffer. */
  lemma AppendAsWrittenWraps()
    ensures AppendAsWritten(253, 5, 255) == (2, 5)
    ensures 253 + AppendAsWritten(253, 5, 255).1 > 255
  {
  }

  /** `*len` keeps counting past the capacity (here 6 with room for 4), and
      the next chunk gives memcpy a negative count. */
  lemma AppendAsWrittenNegative()
    ensures AppendAsWritten(6, 2, 4) == (8, -2)
  {
  }
}
