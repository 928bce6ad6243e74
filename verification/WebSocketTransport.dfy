/** The connection under both clients, and the bytes of a frame they send over it. */
module WebSocketTransport {
  import opened Wrappers
  import opened WebSocketFraming
  import opened WebSocketWire

  /** A TCP connection: `incoming` is what the peer will ever send beyond what was delivered. */
  class Socket {
    var incoming: Bytes
    var sent: Bytes
    ghost var faults: nat

    /** Any non-empty part of what is coming, nothing at the end of the stream, or a timeout. */
    method Recv(limit: nat) returns (chunk: Option<Bytes>)
      requires limit > 0
      modifies `incoming, `faults
      ensures faults == old(faults) + if chunk.None? then 1 else 0
      ensures chunk.None? ==> incoming == old(incoming)
      ensures chunk.Some? ==> chunk.value + incoming == old(incoming) && |chunk.value| <= limit
      ensures chunk == Some([]) ==> old(incoming) == []
    {
      var timeout: bool := *;
      if timeout {
        faults := faults + 1;
        return None;
      }
      if incoming == [] {
        return Some([]);
      }
      var count: nat :| 0 < count <= limit && count <= |incoming|;
      chunk := Some(incoming[..count]);
      incoming := incoming[count..];
    }

    /** All of the data, or a failure after some of it. */
    method SendAll(data: Bytes) returns (ok: bool)
      modifies `sent, `faults
      ensures faults == old(faults) + if ok then 0 else 1
      ensures ok ==> sent == old(sent) + data
      ensures old(sent) <= sent
    {
      var fault: bool := *;
      if fault {
        var count: nat :| count <= |data|;
        sent := sent + data[..count];
        faults := faults + 1;
        return false;
      }
      sent := sent + data;
      return true;
    }
  }

  method RandomMask() returns (mask: Bytes)
    ensures |mask| == 4
  {
    var a: bv8, b: bv8, c: bv8, d: bv8 := *, *, *, *;
    return [a, b, c, d];
  }

  /** A frame behind a mask, its length in the shortest form. */
  method FrameBytes(final: bool, opcode: bv8, payload: Bytes, mask: Bytes) returns (bytes: Bytes)
    requires opcode <= 0xF && |mask| == 4 && |payload| < 0x8000_0000_0000_0000
    ensures bytes == Encode(Frame(final, opcode, payload), Some(mask), Minimal(|payload|))
    ensures OnWire(bytes, Frame(final, opcode, payload), Some(mask), Shortest(|payload|))
  {
    hide FirstByte, LengthByte, Pack, Masked, OnWire;
    var length := |payload|;
    var header: Bytes;
    if length < 126 {
      header := [FirstByte(final, opcode), LengthByte(true, length)];
    } else if length <= 65535 {
      header := [FirstByte(final, opcode), LengthByte(true, 126)] + Pack(length, 2);
    } else {
      header := [FirstByte(final, opcode), LengthByte(true, 127)] + Pack(length, 8);
    }
    assert header == [FirstByte(final, opcode)] + LengthField(length, true, Minimal(length));
    bytes := header + mask + Masked(payload, mask);
    assert bytes == header + (mask + Masked(payload, mask));
    EncodedIff(bytes, Frame(final, opcode, payload), Some(mask), Minimal(length));
  }
}
