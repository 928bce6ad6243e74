/**
 The API acceptance client's connection (test-phase3-websocket.py), proved against the
 frame-level account in `StrictMessages`.
 */
module StrictSocket {
  import opened Wrappers
  import opened WebSocketFraming
  import opened WebSocketWire
  import opened WebSocketMessages
  import opened WebSocketTransport
  import opened StrictMessages

  const STRICT := Rules(true, MAX_SERVER_MESSAGE_BYTES)

  /** How the server reads what this client sends: masked frames included. */
  const SERVER := Rules(false, MAX_SERVER_MESSAGE_BYTES)

  datatype Error =
    | TimedOut
    | NotSent
    | Ended
    | BadFrame
    | Objected(objection: Objection)

  datatype Event<J> = Message(message: J) | Close(code: Option<nat>, reason: string)

  class WebSocket<J> {
    const socket: Socket
    const decoders: Decoders<J>
    var buffer: Bytes
    var fragments: Option<Bytes>
    var fragmentOpcode: Option<bv8>

    constructor (socket: Socket, decoders: Decoders<J>, remainder: Bytes)
      ensures this.socket == socket && this.decoders == decoders && buffer == remainder
      ensures Valid() && Open() == None
    {
      this.socket := socket;
      this.decoders := decoders;
      buffer := remainder;
      fragments := None;
      fragmentOpcode := None;
    }

    ghost predicate Valid()
      reads this
    {
      fragments.Some? <==> fragmentOpcode.Some?
    }

    ghost function Open(): Option<Unfinished>
      reads this
      requires Valid()
    {
      if fragments.Some? then Some(Unfinished(fragmentOpcode.value, fragments.value)) else None
    }

    ghost function Pending(): Bytes
      reads this, socket
    {
      buffer + socket.incoming
    }

    ghost function Inbound(): seq<Frame>
      reads this, socket
    {
      Frames(STRICT, Pending())
    }

    /** What has been sent since is one pong for each of these pings, in order, and nothing else. */
    ghost predicate Answered(before: Bytes, pings: seq<Bytes>)
      reads socket`sent
    {
      before <= socket.sent && Carries(SERVER, socket.sent[|before|..], Pongs(pings))
    }

    /** `_read_exact`. */
    method ReadExact(count: nat) returns (r: Result<Bytes, Error>)
      modifies `buffer, socket`incoming, socket`faults
      ensures socket.faults == old(socket.faults) + if r == Failure(TimedOut) then 1 else 0
      ensures r.Success? ==> count <= |old(Pending())| && r.value == old(Pending())[..count]
                             && Pending() == old(Pending())[count..]
      ensures r.Failure? ==> Pending() == old(Pending())
      ensures r == Failure(Ended) ==> count > |old(Pending())|
      ensures r.Failure? ==> r.error in {Ended, TimedOut}
    {
      while |buffer| < count
        invariant Pending() == old(Pending()) && socket.faults == old(socket.faults)
        decreases |socket.incoming|
      {
        var want := count - |buffer|;
        var chunk := socket.Recv(if want < 65536 then want else 65536);
        if chunk.None? {
          return Failure(TimedOut);
        }
        if chunk.value == [] {
          return Failure(Ended);
        }
        buffer := buffer + chunk.value;
      }
      r := Success(buffer[..count]);
      buffer := buffer[count..];
    }

    /** The length field, which must be the shortest that holds the length. */
    method ReadStrictLength(short: nat) returns (r: Result<nat, Error>)
      modifies `buffer, socket`incoming, socket`faults
      ensures socket.faults == old(socket.faults) + if r == Failure(TimedOut) then 1 else 0
      ensures r.Success? ==> ReadLength(true, short, old(Pending())) == Length(r.value, Pending())
      ensures r == Failure(Ended) ==> ReadLength(true, short, old(Pending())) == LengthTruncated
      ensures r == Failure(BadFrame) ==> ReadLength(true, short, old(Pending())) == LengthInvalid
      ensures r.Failure? ==> r.error in {Ended, BadFrame, TimedOut}
    {
      hide Unpack, TopBitSet;
      if short == 126 {
        var encoded := ReadExact(2);
        if encoded.Failure? {
          return Failure(encoded.error);
        }
        if Unpack(encoded.value) < 126 {
          return Failure(BadFrame);
        }
        return Success(Unpack(encoded.value));
      } else if short == 127 {
        ghost var s := Pending();
        var encoded := ReadExact(8);
        if encoded.Failure? {
          return Failure(encoded.error);
        }
        assert encoded.value[0] == s[0];
        if TopBitSet(encoded.value[0]) {
          return Failure(BadFrame);
        }
        if Unpack(encoded.value) <= 0xFFFF {
          return Failure(BadFrame);
        }
        return Success(Unpack(encoded.value));
      }
      return Success(short);
    }

    /** The head of a frame; the body is still pending. */
    method RecvHead() returns (r: Result<(bool, bv8, nat), Error>)
      modifies `buffer, socket`incoming, socket`faults
      ensures socket.faults == old(socket.faults) + if r == Failure(TimedOut) then 1 else 0
      ensures r.Success? ==>
        Decode(STRICT, old(Pending())) == Body(STRICT, r.value.0, r.value.1, false, r.value.2, Pending())
      ensures r == Failure(Ended) ==> Decode(STRICT, old(Pending())) == Truncated
      ensures r == Failure(BadFrame) ==> Decode(STRICT, old(Pending())) == Invalid
      ensures r.Failure? ==> r.error in {Ended, BadFrame, TimedOut}
    {
      hide ReservedBits, TopBitSet, Opcode, ShortLength, ReadLength, Body;
      ghost var s := Pending();
      var header := ReadExact(2);
      if header.Failure? {
        return Failure(header.error);
      }
      var first, second := header.value[0], header.value[1];
      assert first == s[0] && second == s[1];
      if ReservedBits(first) || TopBitSet(second) {
        return Failure(BadFrame);
      }
      var length := ReadStrictLength(ShortLength(second));
      if length.Failure? {
        return Failure(length.error);
      }
      return Success((TopBitSet(first), Opcode(first), length.value));
    }

    /** `_recv_frame`: the next canonically encoded frame, whatever pieces it arrives in. */
    method RecvFrame() returns (r: Result<Frame, Error>)
      modifies `buffer, socket`incoming, socket`faults
      ensures socket.faults == old(socket.faults) + if r == Failure(TimedOut) then 1 else 0
      ensures r.Success? ==> Decode(STRICT, old(Pending())) == Got(r.value, Pending())
      ensures r.Success? ==> old(Inbound()) == [r.value] + Inbound() && |Pending()| < |old(Pending())|
      ensures r.Success? ==> |r.value.payload| <= MAX_SERVER_MESSAGE_BYTES
      ensures r == Failure(Ended) ==> Decode(STRICT, old(Pending())) == Truncated
      ensures r == Failure(BadFrame) ==> Decode(STRICT, old(Pending())) == Invalid
      ensures r.Failure? && r.error != TimedOut ==> old(Inbound()) == []
      ensures r.Failure? ==> r.error in {Ended, BadFrame, TimedOut}
    {
      hide Decode;
      var head := RecvHead();
      if head.Failure? {
        return Failure(head.error);
      }
      var (final, opcode, length) := head.value;
      if opcode >= 0x8 && !(final && length <= 125) {
        return Failure(BadFrame);
      }
      if length > MAX_SERVER_MESSAGE_BYTES {
        return Failure(BadFrame);
      }
      var payload := ReadExact(length);
      if payload.Failure? {
        return Failure(payload.error);
      }
      return Success(Frame(final, opcode, payload.value));
    }

    /** `send_frame`: a masked frame in the shortest form. */
    method SendFrame(opcode: bv8, payload: Bytes, final: bool) returns (r: Result<(), Error>, ghost mask: Bytes)
      requires opcode <= 0xF && |payload| < 0x8000_0000_0000_0000
      modifies socket`sent, socket`faults
      ensures socket.faults == old(socket.faults) + if r.Failure? then 1 else 0
      ensures |mask| == 4
      ensures r.Success? ==> socket.sent == old(socket.sent)
                             + Encode(Frame(final, opcode, payload), Some(mask), Minimal(|payload|))
      ensures r.Success? ==>
        && old(socket.sent) <= socket.sent
        && OnWire(socket.sent[|old(socket.sent)|..], Frame(final, opcode, payload), Some(mask), Shortest(|payload|))
      ensures r.Failure? ==> r.error == NotSent
    {
      var random := RandomMask();
      mask := random;
      var bytes := FrameBytes(final, opcode, payload, random);
      hide OnWire;
      var ok := socket.SendAll(bytes);
      assert ok ==> socket.sent[|old(socket.sent)|..] == bytes;
      r := if ok then Success(()) else Failure(NotSent);
    }

    /** A ping is answered with a pong of the same payload, behind the answers already sent. */
    method Answer(ghost before: Bytes, ghost pings: seq<Bytes>, payload: Bytes) returns (r: Result<(), Error>)
      requires |payload| <= MAX_SERVER_MESSAGE_BYTES
      requires Answered(before, pings)
      modifies socket`sent, socket`faults
      ensures socket.faults == old(socket.faults) + if r.Failure? then 1 else 0
      ensures r.Success? ==> Answered(before, pings + [payload])
      ensures r.Failure? ==> r.error == NotSent
    {
      hide Carries;
      ghost var sent := socket.sent;
      ghost var mask;
      r, mask := SendFrame(PONG, payload, true);
      if r.Success? {
        CarriesOneMore(SERVER, sent[|before|..], Pongs(pings), Frame(true, PONG, payload),
                       Some(mask), Minimal(|payload|));
        assert socket.sent[|before|..]
            == sent[|before|..] + Encode(Frame(true, PONG, payload), Some(mask), Minimal(|payload|));
        assert Pongs(pings + [payload]) == Pongs(pings) + [Frame(true, PONG, payload)];
      }
    }

    lemma NothingAnswered()
      ensures Answered(socket.sent, [])
    {
      CarriesNothing(SERVER);
      assert Pongs([]) == [] && socket.sent[|socket.sent|..] == [];
    }

    /** `_decode_json`. */
    method DecodeJson(payload: Bytes) returns (r: Result<Event<J>, Error>)
      ensures r.Success? ==> r.value.Message? && Deliver(decoders, TEXT, payload, Inbound())
                                                 == Delivered(r.value.message, Inbound(), [])
      ensures r.Failure? ==> r.error.Objected?
                             && Deliver(decoders, TEXT, payload, Inbound()) == Rejected(r.error.objection)
    {
      if |payload| > MAX_SERVER_MESSAGE_BYTES {
        return Failure(Objected(TooLong));
      }
      var decoded := decoders.json(payload);
      if decoded.None? {
        return Failure(Objected(NotJson));
      }
      return Success(Message(decoded.value));
    }

    method DecodeClose(payload: Bytes) returns (r: Result<Event<J>, Error>)
      requires Valid()
      ensures r.Success? ==> r.value.Close? && CloseOutcome(decoders, payload, Open(), Inbound())
                                               == Closed(r.value.code, r.value.reason, Open(), Inbound(), [])
      ensures r.Failure? ==> r.error.Objected?
                             && CloseOutcome(decoders, payload, Open(), Inbound()) == Rejected(r.error.objection)
    {
      if payload == [] {
        return Success(Close(None, ""));
      }
      if |payload| < 2 {
        return Failure(Objected(BadClose));
      }
      var code := Unpack(payload[..2]);
      var reason := decoders.text(payload[2..]);
      if reason.None? {
        return Failure(Objected(BadClose));
      }
      return Success(Close(Some(code), reason.value));
    }

    /** `recv`: the next message or close, whatever pieces, fragments and pings it arrives among. */
    method Recv() returns (r: Result<Event<J>, Error>, ghost pings: seq<Bytes>)
      requires Valid()
      modifies this, socket
      ensures socket.faults == old(socket.faults)
           + if r.Failure? && r.error in {TimedOut, NotSent} then 1 else 0
      ensures socket.faults == old(socket.faults) ==>
        (r.Success? <==> !ReceiveJson(decoders, old(Open()), old(Inbound())).Rejected?)
      ensures Valid()
      ensures r.Success? && r.value.Message? ==>
        && ReceiveJson(decoders, old(Open()), old(Inbound())) == Delivered(r.value.message, Inbound(), pings)
        && Open() == None && Answered(old(socket.sent), pings)
      ensures r.Success? && r.value.Close? ==>
        && ReceiveJson(decoders, old(Open()), old(Inbound()))
           == Closed(r.value.code, r.value.reason, Open(), Inbound(), pings)
        && Answered(old(socket.sent), pings)
      ensures r.Failure? && r.error.Objected? ==>
        ReceiveJson(decoders, old(Open()), old(Inbound())) == Rejected(r.error.objection)
      ensures r.Failure? && r.error in {Ended, BadFrame} ==>
        ReceiveJson(decoders, old(Open()), old(Inbound())) == Rejected(NoFrame)
    {
      hide Answered, Frames, Deliver, CloseOutcome;
      pings := [];
      ghost var goal := ReceiveJson(decoders, Open(), Inbound());
      ghost var before := socket.sent;
      NothingAnswered();
      OutcomeAfterNothing(goal);
      while true
        invariant Valid()
        invariant goal == ReceiveJson(decoders, Open(), Inbound()).After(pings)
        invariant Answered(before, pings) && socket.faults == old(socket.faults)
        decreases |Pending()|
      {
        ghost var ahead := Inbound();
        var frame := RecvFrame();
        if frame.Failure? {
          return Failure(frame.error), pings;
        }
        var f := frame.value;
        assert ahead[0] == f && ahead[1..] == Inbound();
        assert pings + [] == pings;
        if f.opcode == CLOSE {
          var closed := DecodeClose(f.payload);
          return closed, pings;
        }
        if f.opcode == PING {
          OutcomeAfterTwice(ReceiveJson(decoders, Open(), Inbound()), pings, [f.payload]);
          var sent := Answer(before, pings, f.payload);
          if sent.Failure? {
            return Failure(sent.error), pings;
          }
          pings := pings + [f.payload];
          continue;
        }
        if f.opcode == PONG {
          continue;
        }
        if f.opcode == TEXT || f.opcode == BINARY {
          if fragments.Some? {
            return Failure(Objected(InterleavedData)), pings;
          }
          if f.final {
            if f.opcode != TEXT {
              NotText(decoders, f.opcode, f.payload, Inbound());
              return Failure(Objected(BinaryMessage)), pings;
            }
            var decoded := DecodeJson(f.payload);
            return decoded, pings;
          }
          fragments := Some(f.payload);
          fragmentOpcode := Some(f.opcode);
          continue;
        }
        if f.opcode == CONTINUATION {
          if fragments.None? {
            return Failure(Objected(StrayContinuation)), pings;
          }
          fragments := Some(fragments.value + f.payload);
          if |fragments.value| > MAX_SERVER_MESSAGE_BYTES {
            return Failure(Objected(TooLong)), pings;
          }
          if !f.final {
            continue;
          }
          var complete, originalOpcode := fragments.value, fragmentOpcode.value;
          fragments := None;
          fragmentOpcode := None;
          if originalOpcode != TEXT {
            NotText(decoders, originalOpcode, complete, Inbound());
            return Failure(Objected(BinaryMessage)), pings;
          }
          var decoded := DecodeJson(complete);
          return decoded, pings;
        }
        return Failure(Objected(ReservedOpcode)), pings;
      }
    }
  }

  lemma NotText<J>(decoders: Decoders<J>, opcode: bv8, payload: Bytes, rest: seq<Frame>)
    requires opcode != TEXT
    ensures Deliver(decoders, opcode, payload, rest) == Rejected(BinaryMessage)
  {
  }
}
