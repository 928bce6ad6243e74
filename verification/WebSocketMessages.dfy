/**
 What the viewer probe makes of a sequence of frames: `recv_message` and the RFB byte stream of
 `recv_rfb` (rfb_websocket_probe.py), stated on frames, free of buffers and network chunks.
 */
module WebSocketMessages {
  import opened Wrappers
  import opened WebSocketFraming

  const CONTINUATION: bv8 := 0x0
  const TEXT: bv8 := 0x1
  const BINARY: bv8 := 0x2
  const CLOSE: bv8 := 0x8
  const PING: bv8 := 0x9
  const PONG: bv8 := 0xA

  datatype Fault = OutOfFrames | CloseFrame | UnexpectedOpcode | Interleaved | Oversized

  /** The payload of all data frames, in order. */
  function Data(frames: seq<Frame>): Bytes {
    if frames == [] then []
    else (if frames[0].opcode < 0x8 then frames[0].payload else []) + Data(frames[1..])
  }

  function Pings(frames: seq<Frame>): seq<Bytes> {
    if frames == [] then []
    else (if frames[0].opcode == 0x9 then [frames[0].payload] else []) + Pings(frames[1..])
  }

  function Pongs(pings: seq<Bytes>): seq<Frame> {
    seq(|pings|, i requires 0 <= i < |pings| => Frame(true, 0xA, pings[i]))
  }

  lemma DataStep(f: Frame, front: seq<Frame>, back: seq<Frame>)
    ensures var head := if f.opcode < 0x8 then f.payload else [];
      Data([f] + front) + Data(back) == head + (Data(front) + Data(back))
    ensures var head := if f.opcode == PING then [f.payload] else [];
      Pings([f] + front) + Pings(back) == head + (Pings(front) + Pings(back))
  {
    assert ([f] + front)[1..] == front;
  }

  lemma {:induction false} DataSplit(frames: seq<Frame>, k: nat)
    requires k <= |frames|
    ensures Data(frames) == Data(frames[..k]) + Data(frames[k..])
    ensures Pings(frames) == Pings(frames[..k]) + Pings(frames[k..])
  {
    if k == 0 {
      assert frames[..0] == [] && frames[0..] == frames;
      assert Data([]) + Data(frames) == Data(frames);
      assert Pings([]) + Pings(frames) == Pings(frames);
    } else {
      var front, back := frames[..k], frames[k..];
      DataSplit(frames[1..], k - 1);
      assert front[1..] == frames[1..][..k - 1] && front[0] == frames[0];
      assert back == frames[1..][k - 1..];
      DataStep(frames[0], front[1..], back);
      assert frames == [frames[0]] + frames[1..] && front == [frames[0]] + front[1..];
    }
  }

  // ------------------------------------------------------------ the receivers

  datatype Collected = Whole(payload: Bytes, rest: seq<Frame>) | Broken(fault: Fault)

  /** The rest of a fragmented message: continuation frames up to the final one. */
  function Collect(limit: nat, fragments: Bytes, frames: seq<Frame>): Collected
    decreases |frames|
  {
    if frames == [] then Broken(OutOfFrames)
    else if frames[0].opcode != CONTINUATION then Broken(Interleaved)
    else if |fragments| + |frames[0].payload| > limit then Broken(Oversized)
    else if frames[0].final then Whole(fragments + frames[0].payload, frames[1..])
    else Collect(limit, fragments + frames[0].payload, frames[1..])
  }

  function Message(limit: nat, frames: seq<Frame>): Collected
    requires frames != []
  {
    if frames[0].final then Whole(frames[0].payload, frames[1..])
    else Collect(limit, frames[0].payload, frames[1..])
  }

  datatype Pulled =
    | Pulled(value: Bytes, buffer: Bytes, rest: seq<Frame>, pings: seq<Bytes>)
    | Stopped(fault: Fault)
  {
    function After(pings: seq<Bytes>): Pulled {
      if Pulled? then this.(pings := pings + this.pings) else this
    }
  }

  lemma CollectShrinks(limit: nat, fragments: Bytes, frames: seq<Frame>)
    ensures Collect(limit, fragments, frames).Whole? ==> |Collect(limit, fragments, frames).rest| < |frames|
    decreases |frames|
  {
    if frames != [] {
      CollectShrinks(limit, fragments + frames[0].payload, frames[1..]);
    }
  }

  /** One `recv_rfb` of a given length. */
  function Pull(limit: nat, buffer: Bytes, frames: seq<Frame>, length: nat): Pulled
    decreases |frames|
  {
    if |buffer| >= length then Pulled(buffer[..length], buffer[length..], frames, [])
    else if frames == [] then Stopped(OutOfFrames)
    else
      var f := frames[0];
      if f.opcode == CLOSE then Stopped(CloseFrame)
      else if f.opcode == PING then Pull(limit, buffer, frames[1..], length).After([f.payload])
      else if f.opcode == PONG then Pull(limit, buffer, frames[1..], length)
      else if f.opcode != CONTINUATION && f.opcode != BINARY then Stopped(UnexpectedOpcode)
      else
        var m := Message(limit, frames);
        CollectShrinks(limit, f.payload, frames[1..]);
        if m.Broken? then Stopped(m.fault)
        else if |buffer| + |m.payload| > limit then Stopped(Oversized)
        else Pull(limit, buffer + m.payload, m.rest, length)
  }

  datatype Received =
    | Received(opcode: bv8, payload: Bytes, rest: seq<Frame>, pings: seq<Bytes>)
    | Unreadable(fault: Fault)
  {
    function After(pings: seq<Bytes>): Received {
      if Received? then this.(pings := pings + this.pings) else this
    }
  }

  /** One `recv_message`. */
  function Receive(limit: nat, frames: seq<Frame>): Received {
    if frames == [] then Unreadable(OutOfFrames)
    else
      var f := frames[0];
      if f.opcode == CLOSE then Unreadable(CloseFrame)
      else if f.opcode == PING then Receive(limit, frames[1..]).After([f.payload])
      else if f.opcode == PONG then Receive(limit, frames[1..])
      else if f.opcode != TEXT && f.opcode != BINARY then Unreadable(UnexpectedOpcode)
      else
        var m := Message(limit, frames);
        if m.Broken? then Unreadable(m.fault) else Received(f.opcode, m.payload, m.rest, [])
  }

  // ------------------------------------------------------------ reads are slices of one stream

  /** Collecting neither loses nor reorders data and answers nothing. */
  lemma {:induction false} CollectConserves(limit: nat, fragments: Bytes, frames: seq<Frame>)
    requires Collect(limit, fragments, frames).Whole?
    ensures var m := Collect(limit, fragments, frames);
      && m.payload + Data(m.rest) == fragments + Data(frames)
      && Pings(m.rest) == Pings(frames)
      && |m.payload| <= limit
    decreases |frames|
  {
    var f, tail := frames[0], frames[1..];
    assert Data(frames) == f.payload + Data(tail) && Pings(frames) == Pings(tail);
    Regrouped(fragments, f.payload, Data(tail));
    hide Data, Pings;
    if !f.final {
      CollectConserves(limit, fragments + f.payload, tail);
    }
  }

  lemma DataFrameFirst(frames: seq<Frame>)
    requires frames != [] && frames[0].opcode < 0x8
    ensures Data(frames) == frames[0].payload + Data(frames[1..]) && Pings(frames) == Pings(frames[1..])
  {
  }

  lemma ControlFrameFirst(frames: seq<Frame>)
    requires frames != [] && (frames[0].opcode == PING || frames[0].opcode == PONG)
    ensures Data(frames) == Data(frames[1..])
    ensures Pings(frames) == (if frames[0].opcode == PING then [frames[0].payload] else []) + Pings(frames[1..])
  {
  }

  lemma MessageConserves(limit: nat, frames: seq<Frame>)
    requires frames != [] && frames[0].opcode < 0x8 && Message(limit, frames).Whole?
    ensures var m := Message(limit, frames);
      m.payload + Data(m.rest) == Data(frames) && Pings(m.rest) == Pings(frames) && |m.rest| < |frames|
  {
    hide Data, Pings, Collect;
    DataFrameFirst(frames);
    if !frames[0].final {
      CollectConserves(limit, frames[0].payload, frames[1..]);
      CollectShrinks(limit, frames[0].payload, frames[1..]);
    }
  }

  /** What a successful read does to the stream of the buffer and the payloads still to come. */
  predicate NextSlice(limit: nat, buffer: Bytes, frames: seq<Frame>, length: nat, p: Pulled) {
    && p.Pulled?
    && |p.value| == length
    && p.value + (p.buffer + Data(p.rest)) == buffer + Data(frames)
    && p.pings + Pings(p.rest) == Pings(frames)
    && (|buffer| <= limit ==> |p.buffer| <= limit)
    && |p.rest| <= |frames|
  }

  lemma SliceAfterControl(limit: nat, buffer: Bytes, frames: seq<Frame>, length: nat, p: Pulled)
    requires frames != [] && (frames[0].opcode == PING || frames[0].opcode == PONG)
    requires NextSlice(limit, buffer, frames[1..], length, p)
    ensures NextSlice(limit, buffer, frames, length,
              if frames[0].opcode == PING then p.After([frames[0].payload]) else p)
  {
    var f := frames[0];
    assert [f.payload] + p.pings + Pings(p.rest) == [f.payload] + (p.pings + Pings(p.rest));
  }

  lemma SliceAfterMessage(
    limit: nat, buffer: Bytes, payload: Bytes, frames: seq<Frame>, rest: seq<Frame>, length: nat, p: Pulled)
    requires payload + Data(rest) == Data(frames) && Pings(rest) == Pings(frames) && |rest| < |frames|
    requires |buffer| + |payload| <= limit
    requires NextSlice(limit, buffer + payload, rest, length, p)
    ensures NextSlice(limit, buffer, frames, length, p)
  {
    hide Data, Pings;
    Regrouped(buffer, payload, Data(rest));
  }

  /**
   A read returns the next bytes of the stream formed by the buffer and the payloads still to
   come, and what is left is the stream without them. Pings are answered once each, in order,
   and the buffer keeps within its bound.
   */
  lemma {:induction false} PullIsNextSlice(limit: nat, buffer: Bytes, frames: seq<Frame>, length: nat)
    requires Pull(limit, buffer, frames, length).Pulled?
    ensures NextSlice(limit, buffer, frames, length, Pull(limit, buffer, frames, length))
    decreases |frames|
  {
    hide Message;
    if |buffer| >= length {
      assert buffer == buffer[..length] + buffer[length..];
      assert buffer[..length] + (buffer[length..] + Data(frames)) == buffer + Data(frames);
    } else {
      hide NextSlice, Data, Pings;
      var f := frames[0];
      if f.opcode == PING || f.opcode == PONG {
        PullIsNextSlice(limit, buffer, frames[1..], length);
        SliceAfterControl(limit, buffer, frames, length, Pull(limit, buffer, frames[1..], length));
      } else {
        var m := Message(limit, frames);
        MessageConserves(limit, frames);
        PullIsNextSlice(limit, buffer + m.payload, m.rest, length);
        SliceAfterMessage(limit, buffer, m.payload, frames, m.rest, length, Pull(limit, buffer, frames, length));
      }
    }
  }

  /** A message received whole is the payload of the frames consumed for it. */
  lemma {:induction false} ReceiveConserves(limit: nat, frames: seq<Frame>)
    requires Receive(limit, frames).Received?
    ensures var r := Receive(limit, frames);
      && r.payload + Data(r.rest) == Data(frames) && r.pings + Pings(r.rest) == Pings(frames)
      && |r.rest| < |frames|
    ensures exists k :: 0 <= k < |frames| && StartsAt(frames, k, Receive(limit, frames).opcode)
  {
    var f := frames[0];
    if f.opcode == PING || f.opcode == PONG {
      var r := Receive(limit, frames[1..]);
      ReceiveConserves(limit, frames[1..]);
      var k :| 0 <= k < |frames[1..]| && StartsAt(frames[1..], k, r.opcode);
      assert forall i :: 0 < i <= k ==> frames[i] == frames[1..][i - 1];
      assert StartsAt(frames, k + 1, r.opcode);
      assert [f.payload] + r.pings + Pings(r.rest) == [f.payload] + (r.pings + Pings(r.rest));
    } else {
      MessageConserves(limit, frames);
      assert StartsAt(frames, 0, f.opcode);
    }
  }

  /** Behind pings and pongs only, a text or binary message starts here. */
  predicate StartsAt(frames: seq<Frame>, k: nat, opcode: bv8)
    requires k < |frames|
  {
    && (forall i :: 0 <= i < k ==> frames[i].opcode == 0x9 || frames[i].opcode == 0xA)
    && frames[k].opcode == opcode && (opcode == 0x1 || opcode == 0x2)
  }

  /** Successive reads of the given lengths, if all of them succeed. */
  function Session(limit: nat, buffer: Bytes, frames: seq<Frame>, lengths: seq<nat>): Option<seq<Bytes>>
    decreases |lengths|
  {
    if lengths == [] then Some([])
    else
      var p := Pull(limit, buffer, frames, lengths[0]);
      if p.Stopped? then None
      else
        var later := Session(limit, p.buffer, p.rest, lengths[1..]);
        if later.None? then None else Some([p.value] + later.value)
  }

  function Offset(lengths: seq<nat>, i: nat): nat
    requires i <= |lengths|
  {
    if i == 0 then 0 else lengths[0] + Offset(lengths[1..], i - 1)
  }

  /** Successive reads are consecutive slices of the concatenated payloads. */
  lemma {:induction false} ReadsAreConsecutiveSlices(
    limit: nat, buffer: Bytes, frames: seq<Frame>, lengths: seq<nat>, i: nat)
    requires Session(limit, buffer, frames, lengths).Some? && i < |lengths|
    ensures var values := Session(limit, buffer, frames, lengths).value;
      var stream := buffer + Data(frames);
      && |values| == |lengths|
      && Offset(lengths, i) + lengths[i] <= |stream|
      && values[i] == stream[Offset(lengths, i)..Offset(lengths, i) + lengths[i]]
    decreases |lengths|
  {
    hide Pull, Data, Pings;
    var p := Pull(limit, buffer, frames, lengths[0]);
    var later := p.buffer + Data(p.rest);
    PullIsNextSlice(limit, buffer, frames, lengths[0]);
    SessionLength(limit, p.buffer, p.rest, lengths[1..]);
    if i > 0 {
      ReadsAreConsecutiveSlices(limit, p.buffer, p.rest, lengths[1..], i - 1);
      SliceOfLater(p.value, later, Offset(lengths[1..], i - 1), lengths[i]);
    } else {
      assert (p.value + later)[..lengths[0]] == p.value;
    }
  }

  lemma SliceOfLater(value: Bytes, later: Bytes, o: nat, length: nat)
    requires o + length <= |later|
    ensures (value + later)[|value| + o..|value| + o + length] == later[o..o + length]
  {
  }

  lemma {:induction false} SessionLength(limit: nat, buffer: Bytes, frames: seq<Frame>, lengths: seq<nat>)
    requires Session(limit, buffer, frames, lengths).Some?
    ensures |Session(limit, buffer, frames, lengths).value| == |lengths|
    decreases |lengths|
  {
    if lengths != [] {
      var p := Pull(limit, buffer, frames, lengths[0]);
      SessionLength(limit, p.buffer, p.rest, lengths[1..]);
    }
  }

  // ------------------------------------------------------------ exactly which frames can be read

  /**
   The frame sequences the RFB reader can get through to a message boundary: whole messages,
   each a run of data frames ended by a final one, with pings and pongs only between them.
   */
  predicate Readable(frames: seq<Frame>, open: bool) {
    if frames == [] then !open
    else if open then frames[0].opcode == CONTINUATION && Readable(frames[1..], !frames[0].final)
    else if frames[0].opcode == PING || frames[0].opcode == PONG then Readable(frames[1..], false)
    else (frames[0].opcode == CONTINUATION || frames[0].opcode == BINARY)
         && Readable(frames[1..], !frames[0].final)
  }

  /** A readable stretch ends on a boundary that collecting reaches. */
  lemma {:induction false} CollectReads(limit: nat, fragments: Bytes, a: seq<Frame>, b: seq<Frame>)
    returns (ahead: seq<Frame>)
    requires Readable(a, true) && |fragments| + |Data(a)| <= limit
    ensures Readable(ahead, false) && |ahead| < |a|
    ensures var m := Collect(limit, fragments, a + b);
      m.Whole? && m.rest == ahead + b && m.payload + Data(ahead) == fragments + Data(a)
    decreases |a|
  {
    var f, tail := a[0], a[1..];
    assert (a + b)[0] == f && (a + b)[1..] == tail + b;
    assert fragments + f.payload + Data(tail) == fragments + Data(a);
    if f.final {
      ahead := tail;
    } else {
      ahead := CollectReads(limit, fragments + f.payload, tail, b);
    }
  }

  /** What collecting consumed is a readable stretch. */
  lemma {:induction false} CollectedIsReadable(limit: nat, fragments: Bytes, frames: seq<Frame>)
    returns (consumed: seq<Frame>)
    requires Collect(limit, fragments, frames).Whole?
    ensures Readable(consumed, true) && frames == consumed + Collect(limit, fragments, frames).rest
    decreases |frames|
  {
    var f, tail := frames[0], frames[1..];
    var after: seq<Frame> := [];
    if !f.final {
      after := CollectedIsReadable(limit, fragments + f.payload, tail);
    }
    consumed := [f] + after;
    assert consumed[1..] == after;
  }

  lemma {:induction false} ReadableAppend(a: seq<Frame>, b: seq<Frame>, open: bool)
    requires Readable(a, open) && Readable(b, false)
    ensures Readable(a + b, open)
  {
    if a == [] {
      assert a + b == b;
    } else {
      var next := if open then !a[0].final
                  else if a[0].opcode == PING || a[0].opcode == PONG then false else !a[0].final;
      ReadableAppend(a[1..], b, next);
      assert (a + b)[1..] == a[1..] + b;
    }
  }

  /** A read that succeeds consumed a readable stretch. */
  lemma {:induction false} PulledIsReadable(limit: nat, buffer: Bytes, frames: seq<Frame>, length: nat)
    returns (consumed: seq<Frame>)
    requires Pull(limit, buffer, frames, length).Pulled?
    ensures Readable(consumed, false) && frames == consumed + Pull(limit, buffer, frames, length).rest
    decreases |frames|
  {
    hide Message, Data, Pings;
    if |buffer| >= length {
      consumed := [];
    } else {
      hide Readable;
      var f, p := frames[0], Pull(limit, buffer, frames, length);
      if f.opcode == PING || f.opcode == PONG {
        var after := PulledIsReadable(limit, buffer, frames[1..], length);
        consumed := [f] + after;
        ControlReadable(f, after);
        Regrouped([f], after, p.rest);
      } else {
        var m := Message(limit, frames);
        MessageConserves(limit, frames);
        var first := MessageIsReadable(limit, frames);
        var after := PulledIsReadable(limit, buffer + m.payload, m.rest, length);
        consumed := first + after;
        ReadableAppend(first, after, false);
        Regrouped(first, after, p.rest);
      }
    }
  }

  lemma ControlReadable(f: Frame, after: seq<Frame>)
    requires (f.opcode == PING || f.opcode == PONG) && Readable(after, false)
    ensures Readable([f] + after, false)
  {
    assert ([f] + after)[1..] == after;
  }

  lemma Regrouped<T>(a: seq<T>, b: seq<T>, c: seq<T>)
    ensures a + b + c == a + (b + c)
  {
  }

  lemma MessageIsReadable(limit: nat, frames: seq<Frame>) returns (consumed: seq<Frame>)
    requires frames != [] && (frames[0].opcode == CONTINUATION || frames[0].opcode == BINARY)
    requires Message(limit, frames).Whole?
    ensures Readable(consumed, false) && frames == consumed + Message(limit, frames).rest
  {
    var after: seq<Frame> := [];
    if !frames[0].final {
      after := CollectedIsReadable(limit, frames[0].payload, frames[1..]);
    }
    consumed := [frames[0]] + after;
    assert consumed[1..] == after;
  }

  /** What a read took in and left in the buffer never exceeds the bound together. */
  lemma {:induction false} PullKeepsBound(limit: nat, buffer: Bytes, frames: seq<Frame>, length: nat)
    requires |buffer| <= limit && Pull(limit, buffer, frames, length).Pulled?
    ensures length + |Pull(limit, buffer, frames, length).buffer| <= limit
    decreases |frames|
  {
    hide Message, Data, Pings;
    if |buffer| < length {
      var f := frames[0];
      if f.opcode == PING || f.opcode == PONG {
        PullKeepsBound(limit, buffer, frames[1..], length);
      } else {
        var m := Message(limit, frames);
        MessageConserves(limit, frames);
        PullKeepsBound(limit, buffer + m.payload, m.rest, length);
      }
    }
  }

  /** So enough data lay ahead in a readable stretch, and no more than the bound. */
  lemma PullNeedsEnough(limit: nat, buffer: Bytes, frames: seq<Frame>, length: nat) returns (k: nat)
    requires Pull(limit, buffer, frames, length).Pulled?
    ensures k <= |frames| && Readable(frames[..k], false)
    ensures length <= |buffer| + |Data(frames[..k])|
    ensures |buffer| <= limit ==> |buffer| + |Data(frames[..k])| <= limit
    ensures Pull(limit, buffer, frames, length).rest == frames[k..]
  {
    hide Pull, Data, Pings, Readable;
    var consumed := PulledIsReadable(limit, buffer, frames, length);
    k := |consumed|;
    assert frames[..k] == consumed;
    PullIsNextSlice(limit, buffer, frames, length);
    if |buffer| <= limit {
      PullKeepsBound(limit, buffer, frames, length);
    }
    DataSplit(frames, k);
  }

  /** And where enough data lies ahead, within the bound, the read succeeds. */
  lemma {:induction false} EnoughIsPulled(limit: nat, buffer: Bytes, a: seq<Frame>, b: seq<Frame>, length: nat)
    requires Readable(a, false) && length <= |buffer| + |Data(a)| <= limit
    ensures Pull(limit, buffer, a + b, length).Pulled?
    decreases |a|
  {
    if |buffer| < length {
      var f, tail := a[0], a[1..];
      assert (a + b)[0] == f && (a + b)[1..] == tail + b;
      if f.opcode == PING || f.opcode == PONG {
        EnoughIsPulled(limit, buffer, tail, b, length);
      } else if f.final {
        EnoughIsPulled(limit, buffer + f.payload, tail, b, length);
      } else {
        var ahead := CollectReads(limit, f.payload, tail, b);
        var m := Collect(limit, f.payload, tail + b);
        EnoughIsPulled(limit, buffer + m.payload, ahead, b, length);
      }
    }
  }

  /** Why a read that still wants data stops at these frames, by the first of them. */
  predicate Stops(limit: nat, buffered: nat, frames: seq<Frame>, fault: Fault) {
    if frames == [] then fault == OutOfFrames
    else if frames[0].opcode == 0x8 then fault == CloseFrame
    else if frames[0].opcode != 0x0 && frames[0].opcode != 0x2 then fault == UnexpectedOpcode
    else if frames[0].final then buffered + |frames[0].payload| > limit && fault == Oversized
    else if |frames| == 1 then fault == OutOfFrames
    else if frames[1].opcode != 0x0 then fault == Interleaved
    else |frames[0].payload| + |frames[1].payload| > limit && fault == Oversized
  }

  /** A read crosses whole messages and stops, for its reason, at the first frame it cannot use. */
  lemma {:induction false} StopsAt(
    limit: nat, buffer: Bytes, a: seq<Frame>, b: seq<Frame>, length: nat, fault: Fault)
    requires Readable(a, false) && |buffer| + |Data(a)| <= limit && |buffer| + |Data(a)| < length
    requires b != [] ==> b[0].opcode != 0x9 && b[0].opcode != 0xA
    requires Stops(limit, |buffer| + |Data(a)|, b, fault)
    ensures Pull(limit, buffer, a + b, length) == Stopped(fault)
    decreases |a|
  {
    if a == [] {
      assert a + b == b;
    } else {
      var f, tail := a[0], a[1..];
      assert (a + b)[0] == f && (a + b)[1..] == tail + b;
      if f.opcode == PING || f.opcode == PONG {
        StopsAt(limit, buffer, tail, b, length, fault);
      } else if f.final {
        StopsAt(limit, buffer + f.payload, tail, b, length, fault);
      } else {
        var ahead := CollectReads(limit, f.payload, tail, b);
        var m := Collect(limit, f.payload, tail + b);
        StopsAt(limit, buffer + m.payload, ahead, b, length, fault);
      }
    }
  }

  // ------------------------------------------------------------ against RFC 6455

  /** Section 5.5 of RFC 6455: a control frame is whole and small, and a close has no code or a whole one. */
  predicate ControlConforms(f: Frame) {
    && f.opcode in {CLOSE, PING, PONG} && f.final && |f.payload| <= 125
    && (f.opcode == CLOSE ==> |f.payload| != 1)
  }

  /**
   Sections 5.4 and 5.5 of RFC 6455 for binary messages: control frames may come anywhere, and
   behind a close nothing but pings and pongs.
   */
  predicate Conforms(frames: seq<Frame>, open: bool) {
    if frames == [] then true
    else if frames[0].opcode == CLOSE then
      && ControlConforms(frames[0])
      && forall i :: 0 < i < |frames| ==> ControlConforms(frames[i]) && frames[i].opcode != CLOSE
    else if frames[0].opcode == PING || frames[0].opcode == PONG then
      ControlConforms(frames[0]) && Conforms(frames[1..], open)
    else frames[0].opcode == (if open then CONTINUATION else BINARY) && Conforms(frames[1..], !frames[0].final)
  }

  /** Whether a message is unfinished after these frames. */
  predicate LeftOpen(frames: seq<Frame>, open: bool) {
    if frames == [] then open
    else LeftOpen(frames[1..], if frames[0].opcode >= 0x8 then open else !frames[0].final)
  }

  predicate Unclosed(frames: seq<Frame>) {
    forall i :: 0 <= i < |frames| ==> frames[i].opcode != CLOSE
  }

  /** No control frame stands between the fragments of a message. */
  predicate Unmixed(frames: seq<Frame>, open: bool) {
    if frames == [] then true
    else if frames[0].opcode >= 0x8 then !open && Unmixed(frames[1..], open)
    else Unmixed(frames[1..], !frames[0].final)
  }

  lemma {:induction false} ConformingReadable(frames: seq<Frame>, open: bool)
    requires Conforms(frames, open)
    ensures Readable(frames, open) <==> Unmixed(frames, open) && !LeftOpen(frames, open) && Unclosed(frames)
  {
    if frames != [] && frames[0].opcode != CLOSE {
      assert Unclosed(frames) <==> Unclosed(frames[1..]) by {
        assert frames == [frames[0]] + frames[1..];
      }
      if frames[0].opcode == PING || frames[0].opcode == PONG {
        if !open {
          ConformingReadable(frames[1..], open);
        }
      } else {
        ConformingReadable(frames[1..], !frames[0].final);
      }
    }
  }

  lemma {:induction false} ConformsPrefix(frames: seq<Frame>, open: bool, k: nat)
    requires Conforms(frames, open) && k <= |frames|
    ensures Conforms(frames[..k], open)
    decreases k
  {
    if k > 0 && frames[0].opcode != CLOSE {
      var next := if frames[0].opcode == PING || frames[0].opcode == PONG then open else !frames[0].final;
      ConformsPrefix(frames[1..], next, k - 1);
      assert frames[..k][1..] == frames[1..][..k - 1];
    }
  }

  /**
   On a conforming sequence of any size the probe can read a length exactly when that much arrives
   in whole messages, within the bound of its buffer, before any control frame between fragments
   and before any close.
   */
  lemma ConformingReadIff(limit: nat, buffer: Bytes, frames: seq<Frame>, length: nat)
    requires Conforms(frames, false) && |buffer| <= limit
    ensures Pull(limit, buffer, frames, length).Pulled?
       <==> exists k :: 0 <= k <= |frames| && Unmixed(frames[..k], false) && !LeftOpen(frames[..k], false)
                        && Unclosed(frames[..k]) && length <= |buffer| + |Data(frames[..k])| <= limit
  {
    hide Pull, Data;
    forall k | 0 <= k <= |frames|
      ensures Readable(frames[..k], false)
         <==> Unmixed(frames[..k], false) && !LeftOpen(frames[..k], false) && Unclosed(frames[..k])
    {
      ConformsPrefix(frames, false, k);
      ConformingReadable(frames[..k], false);
    }
    hide Readable, Unmixed, LeftOpen, Conforms, Unclosed;
    if Pull(limit, buffer, frames, length).Pulled? {
      var k := PullNeedsEnough(limit, buffer, frames, length);
      assert Unmixed(frames[..k], false);
    }
    forall k | 0 <= k <= |frames| && Unmixed(frames[..k], false) && !LeftOpen(frames[..k], false)
               && Unclosed(frames[..k]) && length <= |buffer| + |Data(frames[..k])| <= limit
      ensures Pull(limit, buffer, frames, length).Pulled?
    {
      EnoughIsPulled(limit, buffer, frames[..k], frames[k..], length);
      assert frames[..k] + frames[k..] == frames;
    }
  }

  /** Section 5.4 of RFC 6455 allows a ping between fragments; the probe gives up on it. */
  lemma PingBetweenFragmentsIsRefused()
    ensures var frames := [Frame(false, BINARY, [1]), Frame(true, PING, []), Frame(true, CONTINUATION, [2])];
      Conforms(frames, false) && !LeftOpen(frames, false) && Pull(0x100_0000, [], frames, 2) == Stopped(Interleaved)
  {
    var frames := [Frame(false, BINARY, [1]), Frame(true, PING, []), Frame(true, CONTINUATION, [2])];
    assert frames[1..] == [Frame(true, PING, []), Frame(true, CONTINUATION, [2])];
    assert frames[1..][1..] == [Frame(true, CONTINUATION, [2])];
    assert frames[1..][1..][1..] == [];
    assert Conforms(frames[1..][1..][1..], false);
    assert Conforms(frames[1..][1..], true);
    assert !LeftOpen(frames[1..][1..], true);
  }

  /** Section 5.4 of RFC 6455 forbids a continuation with nothing to continue; the probe reads it. */
  lemma StrayContinuationIsRead(limit: nat, payload: Bytes)
    requires 0 < |payload| <= limit
    ensures var frames := [Frame(true, CONTINUATION, payload)];
      !Conforms(frames, false) && Pull(limit, [], frames, |payload|) == Pulled(payload, [], [], [])
  {
    var frames := [Frame(true, CONTINUATION, payload)];
    assert frames[1..] == [] && [] + payload == payload;
    assert Pull(limit, payload, [], |payload|) == Pulled(payload, [], [], []);
  }
}
