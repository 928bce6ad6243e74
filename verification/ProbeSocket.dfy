/**
 The viewer probe's connection (rfb_websocket_probe.py): two byte buffers filled from a socket
 that delivers in pieces of its own choosing and may time out, proved against the frame-level
 account in `WebSocketMessages`.
 */
module ProbeSocket {
  import opened Wrappers
  import opened WebSocketFraming
  import opened WebSocketWire
  import opened WebSocketMessages
  import opened WebSocketTransport

  const MAX_WEBSOCKET_PAYLOAD := 16 * 1024 * 1024

  const PROBE := Rules(false, MAX_WEBSOCKET_PAYLOAD)

  datatype Error =
    | Refused
    | TimedOut
    | NotSent
    | Ended
    | Malformed
    | Protocol(fault: Fault)

  /** `_extend_bounded`. */
  method ExtendBounded(buffer: Bytes, payload: Bytes) returns (r: Option<Bytes>)
    ensures |buffer| + |payload| <= MAX_WEBSOCKET_PAYLOAD ==> r == Some(buffer + payload)
    ensures |buffer| + |payload| > MAX_WEBSOCKET_PAYLOAD ==> r == None
  {
    if |buffer| > MAX_WEBSOCKET_PAYLOAD || |payload| > MAX_WEBSOCKET_PAYLOAD - |buffer| {
      return None;
    }
    return Some(buffer + payload);
  }

  class WebSocket {
    const socket: Socket
    var networkBuffer: Bytes
    var rfbBuffer: Bytes

    /** An upgraded connection, with what arrived behind the upgrade response. */
    constructor (socket: Socket, remainder: Bytes)
      ensures this.socket == socket && networkBuffer == remainder && rfbBuffer == []
    {
      this.socket := socket;
      networkBuffer := remainder;
      rfbBuffer := [];
    }

    /** Every byte not yet consumed, however it is split between buffer and network. */
    ghost function Pending(): Bytes
      reads this, socket
    {
      networkBuffer + socket.incoming
    }

    ghost function Inbound(): seq<Frame>
      reads this, socket
    {
      Frames(PROBE, Pending())
    }

    /** The RFB bytes still to be read. */
    ghost function Stream(): Bytes
      reads this, socket
    {
      rfbBuffer + Data(Inbound())
    }

    method RecvTcp(length: int) returns (r: Result<Bytes, Error>)
      modifies `networkBuffer, socket`incoming, socket`faults
      ensures socket.faults == old(socket.faults) + if r == Failure(TimedOut) then 1 else 0
      ensures r.Success? ==> 0 <= length <= |old(Pending())| && r.value == old(Pending())[..length]
                             && Pending() == old(Pending())[length..]
      ensures r.Failure? ==> Pending() == old(Pending())
      ensures r == Failure(Refused) <==> length < 0 || length > MAX_WEBSOCKET_PAYLOAD
      ensures r == Failure(Ended) ==> length > |old(Pending())|
      ensures r.Failure? ==> r.error in {Refused, Ended, TimedOut}
    {
      if length < 0 || length > MAX_WEBSOCKET_PAYLOAD {
        return Failure(Refused);
      }
      while |networkBuffer| < length
        invariant Pending() == old(Pending()) && socket.faults == old(socket.faults)
        decreases |socket.incoming|
      {
        var want := length - |networkBuffer|;
        var chunk := socket.Recv(if want < 4096 then 4096 else want);
        if chunk.None? {
          return Failure(TimedOut);
        }
        if chunk.value == [] {
          return Failure(Ended);
        }
        networkBuffer := networkBuffer + chunk.value;
      }
      r := Success(networkBuffer[..length]);
      networkBuffer := networkBuffer[length..];
    }

    /** The length field behind the first two bytes. */
    method RecvLength(short: nat) returns (r: Result<nat, Error>)
      modifies `networkBuffer, socket`incoming, socket`faults
      ensures socket.faults == old(socket.faults) + if r == Failure(TimedOut) then 1 else 0
      ensures r.Success? ==> ReadLength(false, short, old(Pending())) == Length(r.value, Pending())
      ensures r == Failure(Ended) ==> ReadLength(false, short, old(Pending())) == LengthTruncated
      ensures r.Failure? ==> r.error in {Ended, TimedOut}
    {
      hide Unpack;
      if short == 126 {
        var field := RecvTcp(2);
        if field.Failure? {
          return Failure(field.error);
        }
        return Success(Unpack(field.value));
      } else if short == 127 {
        var field := RecvTcp(8);
        if field.Failure? {
          return Failure(field.error);
        }
        return Success(Unpack(field.value));
      }
      return Success(short);
    }

    /** The mask, when there is one, and the payload. */
    method RecvBody(final: bool, opcode: bv8, masked: bool, length: nat) returns (r: Result<Frame, Error>)
      requires length <= MAX_WEBSOCKET_PAYLOAD
      modifies `networkBuffer, socket`incoming, socket`faults
      ensures socket.faults == old(socket.faults) + if r == Failure(TimedOut) then 1 else 0
      ensures r.Success? ==> Body(PROBE, final, opcode, masked, length, old(Pending())) == Got(r.value, Pending())
      ensures r.Success? ==> |r.value.payload| == length
      ensures r == Failure(Ended) ==> Body(PROBE, final, opcode, masked, length, old(Pending())) == Truncated
      ensures r.Failure? ==> r.error in {Ended, TimedOut}
    {
      ghost var s := Pending();
      if masked {
        var mask := RecvTcp(4);
        if mask.Failure? {
          return Failure(mask.error);
        }
        var payload := RecvTcp(length);
        if payload.Failure? {
          return Failure(payload.error);
        }
        assert s[4..][..length] == s[4..4 + length] && s[4..][length..] == s[4 + length..];
        return Success(Frame(final, opcode, Masked(payload.value, mask.value)));
      }
      var payload := RecvTcp(length);
      if payload.Failure? {
        return Failure(payload.error);
      }
      return Success(Frame(final, opcode, payload.value));
    }

    /** `_recv_frame`: the next frame of the stream, whatever pieces it arrives in. */
    method RecvFrame() returns (r: Result<Frame, Error>)
      modifies `networkBuffer, socket`incoming, socket`faults
      ensures socket.faults == old(socket.faults) + if r == Failure(TimedOut) then 1 else 0
      ensures r.Success? ==> Decode(PROBE, old(Pending())) == Got(r.value, Pending())
      ensures r.Success? ==> old(Inbound()) == [r.value] + Inbound() && |Pending()| < |old(Pending())|
      ensures r.Success? ==> |r.value.payload| <= MAX_WEBSOCKET_PAYLOAD
      ensures r == Failure(Ended) ==> Decode(PROBE, old(Pending())) == Truncated
      ensures r == Failure(Malformed) ==> Decode(PROBE, old(Pending())) == Invalid
      ensures r.Failure? && r.error != TimedOut ==> old(Inbound()) == []
      ensures r.Failure? ==> r.error in {Ended, Malformed, TimedOut}
    {
      hide ReservedBits, TopBitSet, Opcode, ShortLength, ReadLength, Body;
      ghost var s := Pending();
      var header := RecvTcp(2);
      if header.Failure? {
        return Failure(header.error);
      }
      var first, second := header.value[0], header.value[1];
      assert first == s[0] && second == s[1];
      if ReservedBits(first) {
        return Failure(Malformed);
      }
      var final, opcode, masked := TopBitSet(first), Opcode(first), TopBitSet(second);
      var length := RecvLength(ShortLength(second));
      if length.Failure? {
        return Failure(length.error);
      }
      if length.value > MAX_WEBSOCKET_PAYLOAD {
        BodyTooLong(final, opcode, masked, length.value, Pending());
        return Failure(Malformed);
      }
      r := RecvBody(final, opcode, masked, length.value);
    }

    /** `_send_frame`: a final frame behind a fresh mask, in the shortest form. */
    method SendFrame(opcode: bv8, payload: Bytes) returns (r: Result<(), Error>, ghost mask: Bytes)
      requires opcode <= 0xF && |payload| < 0x8000_0000_0000_0000
      modifies socket`sent, socket`faults
      ensures socket.faults == old(socket.faults) + if r.Failure? then 1 else 0
      ensures |mask| == 4
      ensures r.Success? ==> socket.sent == old(socket.sent)
                             + Encode(Frame(true, opcode, payload), Some(mask), Minimal(|payload|))
      ensures r.Success? ==>
        && old(socket.sent) <= socket.sent
        && OnWire(socket.sent[|old(socket.sent)|..], Frame(true, opcode, payload), Some(mask), Shortest(|payload|))
      ensures r.Failure? ==> r.error == NotSent
    {
      var random := RandomMask();
      mask := random;
      var bytes := FrameBytes(true, opcode, payload, random);
      hide OnWire;
      var ok := socket.SendAll(bytes);
      assert ok ==> socket.sent[|old(socket.sent)|..] == bytes;
      r := if ok then Success(()) else Failure(NotSent);
    }

    /** Continuation frames up to the final one, appended to the first fragment. */
    method CollectFragments(first: Bytes) returns (r: Result<Bytes, Error>)
      requires |first| <= MAX_WEBSOCKET_PAYLOAD
      modifies `networkBuffer, socket`incoming, socket`faults
      ensures socket.faults == old(socket.faults) + if r == Failure(TimedOut) then 1 else 0
      ensures r.Success? ==> |Pending()| <= |old(Pending())|
      ensures r.Success? ==> Collect(MAX_WEBSOCKET_PAYLOAD, first, old(Inbound())) == Whole(r.value, Inbound())
      ensures r.Failure? && r.error.Protocol? ==>
        Collect(MAX_WEBSOCKET_PAYLOAD, first, old(Inbound())) == Broken(r.error.fault)
      ensures r.Failure? && r.error in {Ended, Malformed} ==>
        Collect(MAX_WEBSOCKET_PAYLOAD, first, old(Inbound())) == Broken(OutOfFrames)
      ensures r.Failure? ==> r.error in {Ended, Malformed, TimedOut} || r.error.Protocol?
    {
      var initial := ExtendBounded([], first);
      var fragments := initial.value;
      assert fragments == first;
      var final := false;
      while !final
        invariant |Pending()| <= |old(Pending())| && socket.faults == old(socket.faults)
        invariant Collect(MAX_WEBSOCKET_PAYLOAD, first, old(Inbound()))
               == if final then Whole(fragments, Inbound())
                  else Collect(MAX_WEBSOCKET_PAYLOAD, fragments, Inbound())
        decreases !final, |Pending()|
      {
        ghost var ahead := Inbound();
        var frame := RecvFrame();
        if frame.Failure? {
          return Failure(frame.error);
        }
        assert ahead[0] == frame.value && ahead[1..] == Inbound();
        if frame.value.opcode != CONTINUATION {
          return Failure(Protocol(Interleaved));
        }
        var extended := ExtendBounded(fragments, frame.value.payload);
        if extended.None? {
          return Failure(Protocol(Oversized));
        }
        fragments := extended.value;
        final := frame.value.final;
      }
      return Success(fragments);
    }

    /** A ping is answered with a pong of the same payload, behind the answers already sent. */
    method Answer(ghost before: Bytes, ghost pings: seq<Bytes>, payload: Bytes) returns (r: Result<(), Error>)
      requires |payload| <= MAX_WEBSOCKET_PAYLOAD
      requires Answered(before, pings)
      modifies socket`sent, socket`faults
      ensures socket.faults == old(socket.faults) + if r.Failure? then 1 else 0
      ensures r.Success? ==> Answered(before, pings + [payload])
      ensures r.Failure? ==> r.error == NotSent
    {
      hide Carries;
      ghost var sent := socket.sent;
      ghost var mask;
      r, mask := SendFrame(PONG, payload);
      if r.Success? {
        CarriesOneMore(PROBE, sent[|before|..], Pongs(pings), Frame(true, PONG, payload),
                       Some(mask), Minimal(|payload|));
        assert socket.sent[|before|..]
            == sent[|before|..] + Encode(Frame(true, PONG, payload), Some(mask), Minimal(|payload|));
        assert Pongs(pings + [payload]) == Pongs(pings) + [Frame(true, PONG, payload)];
      }
    }

    /** What has been sent since is one pong for each of these pings, in order, and nothing else. */
    ghost predicate Answered(before: Bytes, pings: seq<Bytes>)
      reads socket`sent
    {
      before <= socket.sent && Carries(PROBE, socket.sent[|before|..], Pongs(pings))
    }

    lemma NothingAnswered()
      ensures Answered(socket.sent, [])
    {
      CarriesNothing(PROBE);
      assert Pongs([]) == [] && socket.sent[|socket.sent|..] == [];
    }

    /**
     `recv_rfb`: the next bytes of the RFB stream, whatever the chunks, fragments and pings they
     arrive among.
     */
    method RecvRfb(length: int) returns (r: Result<Bytes, Error>, ghost pings: seq<Bytes>)
      requires |rfbBuffer| <= MAX_WEBSOCKET_PAYLOAD
      modifies `networkBuffer, `rfbBuffer, socket
      ensures socket.faults == old(socket.faults)
           + if r.Failure? && r.error in {TimedOut, NotSent} then 1 else 0
      ensures socket.faults == old(socket.faults) && 0 <= length <= MAX_WEBSOCKET_PAYLOAD ==>
        (r.Success? <==> Pull(MAX_WEBSOCKET_PAYLOAD, old(rfbBuffer), old(Inbound()), length).Pulled?)
      ensures |rfbBuffer| <= MAX_WEBSOCKET_PAYLOAD
      ensures r == Failure(Refused) <==> length < 0 || length > MAX_WEBSOCKET_PAYLOAD
      ensures r.Success? ==>
        && Pull(MAX_WEBSOCKET_PAYLOAD, old(rfbBuffer), old(Inbound()), length)
           == Pulled(r.value, rfbBuffer, Inbound(), pings)
        && |r.value| == length && r.value + Stream() == old(Stream())
        && pings + Pings(Inbound()) == old(Pings(Inbound()))
        && Answered(old(socket.sent), pings)
      ensures r.Failure? && r.error.Protocol? ==>
        Pull(MAX_WEBSOCKET_PAYLOAD, old(rfbBuffer), old(Inbound()), length) == Stopped(r.error.fault)
      ensures r.Failure? && r.error in {Ended, Malformed} ==>
        Pull(MAX_WEBSOCKET_PAYLOAD, old(rfbBuffer), old(Inbound()), length) == Stopped(OutOfFrames)
    {
      hide Answered, Frames, Data, Pings;
      pings := [];
      if length < 0 || length > MAX_WEBSOCKET_PAYLOAD {
        return Failure(Refused), pings;
      }
      ghost var goal := Pull(MAX_WEBSOCKET_PAYLOAD, rfbBuffer, Inbound(), length);
      ghost var before := socket.sent;
      NothingAnswered();
      AfterNothing(goal);
      while |rfbBuffer| < length
        invariant |rfbBuffer| <= MAX_WEBSOCKET_PAYLOAD
        invariant goal == Pull(MAX_WEBSOCKET_PAYLOAD, rfbBuffer, Inbound(), length).After(pings)
        invariant Answered(before, pings) && socket.faults == old(socket.faults)
        decreases |Pending()|
      {
        ghost var ahead := Inbound();
        var frame := RecvFrame();
        if frame.Failure? {
          return Failure(frame.error), pings;
        }
        var f := frame.value;
        assert ahead[0] == f && ahead[1..] == Inbound();
        if f.opcode == CLOSE {
          return Failure(Protocol(CloseFrame)), pings;
        }
        if f.opcode == PING {
          AfterTwice(Pull(MAX_WEBSOCKET_PAYLOAD, rfbBuffer, Inbound(), length), pings, [f.payload]);
          var sent := Answer(before, pings, f.payload);
          if sent.Failure? {
            return Failure(sent.error), pings;
          }
          pings := pings + [f.payload];
          continue;
        }
        if f.opcode == PONG {
          continue;
        }
        if f.opcode != CONTINUATION && f.opcode != BINARY {
          return Failure(Protocol(UnexpectedOpcode)), pings;
        }
        var payload := f.payload;
        if !f.final {
          var whole := CollectFragments(payload);
          if whole.Failure? {
            return Failure(whole.error), pings;
          }
          payload := whole.value;
        }
        var extended := ExtendBounded(rfbBuffer, payload);
        if extended.None? {
          return Failure(Protocol(Oversized)), pings;
        }
        rfbBuffer := extended.value;
      }
      PullIsNextSlice(MAX_WEBSOCKET_PAYLOAD, old(rfbBuffer), old(Inbound()), length);
      r := Success(rfbBuffer[..length]);
      rfbBuffer := rfbBuffer[length..];
      assert goal.pings == pings + [] == pings;
    }

    /** `recv_message`: the next text or binary message, reassembled. */
    method RecvMessage() returns (r: Result<(bv8, Bytes), Error>, ghost pings: seq<Bytes>)
      modifies `networkBuffer, socket
      ensures socket.faults == old(socket.faults)
           + if r.Failure? && r.error in {TimedOut, NotSent} then 1 else 0
      ensures socket.faults == old(socket.faults) ==>
        (r.Success? <==> Receive(MAX_WEBSOCKET_PAYLOAD, old(Inbound())).Received?)
      ensures r.Failure? ==> r.error != Refused
      ensures r.Success? ==>
        && Receive(MAX_WEBSOCKET_PAYLOAD, old(Inbound())) == Received(r.value.0, r.value.1, Inbound(), pings)
        && r.value.1 + Data(Inbound()) == old(Data(Inbound()))
        && Answered(old(socket.sent), pings)
      ensures r.Failure? && r.error.Protocol? ==>
        Receive(MAX_WEBSOCKET_PAYLOAD, old(Inbound())) == Unreadable(r.error.fault)
      ensures r.Failure? && r.error in {Ended, Malformed} ==>
        Receive(MAX_WEBSOCKET_PAYLOAD, old(Inbound())) == Unreadable(OutOfFrames)
    {
      hide Answered, Frames, Data, Pings;
      pings := [];
      ghost var goal := Receive(MAX_WEBSOCKET_PAYLOAD, Inbound());
      ghost var before := socket.sent;
      NothingAnswered();
      ReceivedAfterNothing(goal);
      while true
        invariant goal == Receive(MAX_WEBSOCKET_PAYLOAD, Inbound()).After(pings)
        invariant Answered(before, pings) && socket.faults == old(socket.faults)
        decreases |Pending()|
      {
        ghost var ahead := Inbound();
        var frame := RecvFrame();
        if frame.Failure? {
          return Failure(frame.error), pings;
        }
        var f := frame.value;
        assert ahead[0] == f && ahead[1..] == Inbound();
        if f.opcode == CLOSE {
          return Failure(Protocol(CloseFrame)), pings;
        }
        if f.opcode == PING {
          ReceivedAfterTwice(Receive(MAX_WEBSOCKET_PAYLOAD, Inbound()), pings, [f.payload]);
          var sent := Answer(before, pings, f.payload);
          if sent.Failure? {
            return Failure(sent.error), pings;
          }
          pings := pings + [f.payload];
          continue;
        }
        if f.opcode == PONG {
          continue;
        }
        if f.opcode != TEXT && f.opcode != BINARY {
          return Failure(Protocol(UnexpectedOpcode)), pings;
        }
        var payload := f.payload;
        if !f.final {
          var whole := CollectFragments(payload);
          if whole.Failure? {
            return Failure(whole.error), pings;
          }
          payload := whole.value;
        }
        assert goal.pings == pings + [] == pings;
        ReceiveConserves(MAX_WEBSOCKET_PAYLOAD, old(Inbound()));
        return Success((f.opcode, payload)), pings;
      }
    }
  }

  lemma AfterNothing(p: Pulled)
    ensures p.After([]) == p
  {
  }

  lemma AfterTwice(p: Pulled, a: seq<Bytes>, b: seq<Bytes>)
    ensures p.After(b).After(a) == p.After(a + b)
  {
    if p.Pulled? {
      assert a + (b + p.pings) == a + b + p.pings;
    }
  }

  lemma ReceivedAfterNothing(r: Received)
    ensures r.After([]) == r
  {
  }

  lemma ReceivedAfterTwice(r: Received, a: seq<Bytes>, b: seq<Bytes>)
    ensures r.After(b).After(a) == r.After(a + b)
  {
    if r.Received? {
      assert a + (b + r.pings) == a + b + r.pings;
    }
  }

  lemma BodyTooLong(final: bool, opcode: bv8, masked: bool, length: nat, s: Bytes)
    requires length > MAX_WEBSOCKET_PAYLOAD
    ensures Body(PROBE, final, opcode, masked, length, s) == Invalid
  {
  }
}
