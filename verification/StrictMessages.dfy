/**
 What the API acceptance client (`recv` of test-phase3-websocket.py) makes of a sequence of
 frames: one JSON message or a close, with pings answered on the way.

 JSON and UTF-8 decoding are parameters.
 */
module StrictMessages {
  import opened Wrappers
  import opened WebSocketFraming
  import opened WebSocketMessages
  import opened WebSocketWire

  const MAX_SERVER_MESSAGE_BYTES := 2 * 1024 * 1024

  datatype Decoders<J> = Decoders(json: Bytes -> Option<J>, text: Bytes -> Option<string>)

  /** A message whose final fragment has not arrived. */
  datatype Unfinished = Unfinished(opcode: bv8, fragments: Bytes)

  datatype Objection =
    | NoFrame
    | BadClose
    | InterleavedData
    | StrayContinuation
    | BinaryMessage
    | TooLong
    | NotJson
    | ReservedOpcode

  datatype Outcome<J> =
    | Delivered(message: J, rest: seq<Frame>, pings: seq<Bytes>)
    | Closed(code: Option<nat>, reason: string, open: Option<Unfinished>, rest: seq<Frame>, pings: seq<Bytes>)
    | Rejected(objection: Objection)
  {
    function After(pings: seq<Bytes>): Outcome<J> {
      if Rejected? then this else this.(pings := pings + this.pings)
    }
  }

  /** `_decode_json` on a complete payload. */
  function Deliver<J>(decoders: Decoders<J>, opcode: bv8, payload: Bytes, rest: seq<Frame>): Outcome<J> {
    if opcode != TEXT then Rejected(BinaryMessage)
    else if |payload| > MAX_SERVER_MESSAGE_BYTES then Rejected(TooLong)
    else if decoders.json(payload).None? then Rejected(NotJson)
    else Delivered(decoders.json(payload).value, rest, [])
  }

  function CloseOutcome<J>(
    decoders: Decoders<J>, payload: Bytes, open: Option<Unfinished>, rest: seq<Frame>): Outcome<J>
  {
    if payload == [] then Closed(None, "", open, rest, [])
    else if |payload| < 2 || decoders.text(payload[2..]).None? then Rejected(BadClose)
    else Closed(Some(Unpack(payload[..2])), decoders.text(payload[2..]).value, open, rest, [])
  }

  /** One `recv`, starting with a message possibly under way. */
  function ReceiveJson<J>(decoders: Decoders<J>, open: Option<Unfinished>, frames: seq<Frame>): Outcome<J>
    decreases |frames|
  {
    if frames == [] then Rejected(NoFrame)
    else
      var f, tail := frames[0], frames[1..];
      if f.opcode == CLOSE then CloseOutcome(decoders, f.payload, open, tail)
      else if f.opcode == PING then ReceiveJson(decoders, open, tail).After([f.payload])
      else if f.opcode == PONG then ReceiveJson(decoders, open, tail)
      else if f.opcode == TEXT || f.opcode == BINARY then
        if open.Some? then Rejected(InterleavedData)
        else if f.final then Deliver(decoders, f.opcode, f.payload, tail)
        else ReceiveJson(decoders, Some(Unfinished(f.opcode, f.payload)), tail)
      else if f.opcode == CONTINUATION then
        if open.None? then Rejected(StrayContinuation)
        else
          var fragments := open.value.fragments + f.payload;
          if |fragments| > MAX_SERVER_MESSAGE_BYTES then Rejected(TooLong)
          else if f.final then Deliver(decoders, open.value.opcode, fragments, tail)
          else ReceiveJson(decoders, Some(Unfinished(open.value.opcode, fragments)), tail)
      else Rejected(ReservedOpcode)
  }

  // ------------------------------------------------------------ what is delivered

  /**
   Exactly one text message, or with `open` the rest of one: its fragments, with any pings and
   pongs before and between them, up to the final fragment (section 5.4 of RFC 6455).
   */
  predicate OneText(frames: seq<Frame>, open: bool) {
    if frames == [] then false
    else if frames[0].opcode == PING || frames[0].opcode == PONG then OneText(frames[1..], open)
    else
      && frames[0].opcode == (if open then CONTINUATION else TEXT)
      && if frames[0].final then |frames| == 1 else OneText(frames[1..], true)
  }

  function Begun(open: Option<Unfinished>): Bytes {
    if open.Some? then open.value.fragments else []
  }

  /** The message under way, if any, is a text message. */
  predicate TextOpen(open: Option<Unfinished>) {
    open.Some? ==> open.value.opcode == TEXT
  }

  /**
   Every text message within the bound, however fragmented and whatever control frames stand
   between its fragments, is delivered as the concatenation of its fragments, every ping having
   been answered in order.
   */
  lemma {:induction false} OneTextIsDelivered<J>(
    decoders: Decoders<J>, open: Option<Unfinished>, a: seq<Frame>, b: seq<Frame>)
    requires TextOpen(open) && OneText(a, open.Some?)
    requires |Begun(open) + Data(a)| <= MAX_SERVER_MESSAGE_BYTES
    ensures var payload := Begun(open) + Data(a);
      ReceiveJson(decoders, open, a + b)
      == if decoders.json(payload).None? then Rejected(NotJson)
         else Delivered(decoders.json(payload).value, b, Pings(a))
    decreases |a|
  {
    assert Data([]) == [] && Pings([]) == [];
    hide Data, Pings;
    var f, tail := a[0], a[1..];
    assert (a + b)[0] == f && (a + b)[1..] == tail + b;
    if f.opcode == PING || f.opcode == PONG {
      ControlFrameFirst(a);
      OneTextIsDelivered(decoders, open, tail, b);
    } else {
      DataFrameFirst(a);
      Regrouped(Begun(open), f.payload, Data(tail));
      assert open.None? ==> [] + f.payload == f.payload;
      if f.final {
        assert tail == [] && tail + b == b;
        assert Begun(open) + Data(a) == Begun(open) + f.payload;
      } else {
        OneTextIsDelivered(decoders, Some(Unfinished(TEXT, Begun(open) + f.payload)), tail, b);
      }
    }
  }

  // ------------------------------------------------------------ what ends a receive

  /** Pings, pongs and fragments in order, none of them the last. */
  predicate Beginning(frames: seq<Frame>, open: bool) {
    if frames == [] then true
    else if frames[0].opcode == PING || frames[0].opcode == PONG then Beginning(frames[1..], open)
    else
      && !frames[0].final
      && (if open then frames[0].opcode == CONTINUATION else frames[0].opcode == TEXT || frames[0].opcode == BINARY)
      && Beginning(frames[1..], true)
  }

  /** The message under way after them. */
  function OpenAfter(open: Option<Unfinished>, frames: seq<Frame>): Option<Unfinished>
    decreases |frames|
  {
    if frames == [] then open
    else if frames[0].opcode == PING || frames[0].opcode == PONG then OpenAfter(open, frames[1..])
    else OpenAfter(Some(Unfinished(if open.Some? then open.value.opcode else frames[0].opcode,
                                   Begun(open) + frames[0].payload)), frames[1..])
  }

  /** What is under way is the concatenation of the fragments so far. */
  lemma {:induction false} OpenAfterHolds(open: Option<Unfinished>, frames: seq<Frame>)
    requires Beginning(frames, open.Some?)
    ensures Begun(OpenAfter(open, frames)) == Begun(open) + Data(frames)
    decreases |frames|
  {
    assert Data([]) == [];
    hide Data;
    if frames == [] {
      assert Begun(open) + [] == Begun(open);
    } else if frames[0].opcode == PING || frames[0].opcode == PONG {
      ControlFrameFirst(frames);
      OpenAfterHolds(open, frames[1..]);
    } else {
      DataFrameFirst(frames);
      var next := Unfinished(if open.Some? then open.value.opcode else frames[0].opcode, Begun(open) + frames[0].payload);
      OpenAfterHolds(Some(next), frames[1..]);
      Regrouped(Begun(open), frames[0].payload, Data(frames[1..]));
    }
  }

  /** What the close says: no code, or a two-byte code with a reason. */
  predicate ClosesWith<J>(decoders: Decoders<J>, payload: Bytes, code: Option<nat>, reason: string) {
    if |payload| == 0 then code == None && reason == ""
    else
      && |payload| >= 2 && decoders.text(payload[2..]) == Some(reason)
      && code == Some(OfByte(payload[0]) * 256 + OfByte(payload[1]))
  }

  /**
   How a receive ends at its next frame that is neither ping nor pong: with the close it carries,
   with the message it completes, or with an objection to it; only a fragment that is not the last
   lets it go on.
   */
  lemma NextFrameDecides<J>(decoders: Decoders<J>, open: Option<Unfinished>, f: Frame, rest: seq<Frame>)
    requires f.opcode != PING && f.opcode != PONG
    ensures var o := ReceiveJson(decoders, open, [f] + rest);
      var whole := Begun(open) + f.payload;
      if f.opcode == 0x8 then
        if exists code, reason :: ClosesWith(decoders, f.payload, code, reason) then
          o.Closed? && ClosesWith(decoders, f.payload, o.code, o.reason)
          && o.open == open && o.rest == rest && o.pings == []
        else o == Rejected(BadClose)
      else if f.opcode > 0x2 then o == Rejected(ReservedOpcode)
      else if f.opcode == 0x0 && open.None? then o == Rejected(StrayContinuation)
      else if f.opcode != 0x0 && open.Some? then o == Rejected(InterleavedData)
      else if f.opcode == 0x0 && |whole| > 2097152 then o == Rejected(TooLong)
      else if !f.final then
        o == ReceiveJson(decoders, Some(Unfinished(if open.Some? then open.value.opcode else f.opcode, whole)), rest)
      else if (if open.Some? then open.value.opcode else f.opcode) != 0x1 then o == Rejected(BinaryMessage)
      else if |whole| > 2097152 then o == Rejected(TooLong)
      else if decoders.json(whole).None? then o == Rejected(NotJson)
      else o == Delivered(decoders.json(whole).value, rest, [])
  {
    hide OfByte, Unpack;
    assert ([f] + rest)[1..] == rest;
    assert open.None? ==> Begun(open) + f.payload == f.payload;
    if f.opcode == CLOSE && |f.payload| >= 2 {
      UnpackTwo(f.payload[..2]);
      if decoders.text(f.payload[2..]).Some? {
        assert ClosesWith(decoders, f.payload, Some(OfByte(f.payload[0]) * 256 + OfByte(f.payload[1])),
                          decoders.text(f.payload[2..]).value);
      }
    } else if f.opcode == CLOSE && f.payload == [] {
      assert ClosesWith(decoders, f.payload, None, "");
    }
  }

  lemma ControlPasses<J>(decoders: Decoders<J>, open: Option<Unfinished>, f: Frame, rest: seq<Frame>)
    requires f.opcode == PING || f.opcode == PONG
    ensures ReceiveJson(decoders, open, [f] + rest)
         == ReceiveJson(decoders, open, rest).After(if f.opcode == PING then [f.payload] else [])
  {
    assert ([f] + rest)[1..] == rest;
    OutcomeAfterNothing(ReceiveJson(decoders, open, rest));
  }

  lemma OutcomeAfterNothing<J>(o: Outcome<J>)
    ensures o.After([]) == o
  {
  }

  lemma OutcomeAfterTwice<J>(o: Outcome<J>, a: seq<Bytes>, b: seq<Bytes>)
    ensures o.After(b).After(a) == o.After(a + b)
  {
    if !o.Rejected? {
      assert a + (b + o.pings) == a + b + o.pings;
    }
  }

  /** Reading such a beginning answers its pings and goes on with the message under way. */
  lemma {:induction false} ReceiveAfter<J>(
    decoders: Decoders<J>, open: Option<Unfinished>, a: seq<Frame>, b: seq<Frame>)
    requires Beginning(a, open.Some?) && |Begun(open) + Data(a)| <= MAX_SERVER_MESSAGE_BYTES
    ensures ReceiveJson(decoders, open, a + b) == ReceiveJson(decoders, OpenAfter(open, a), b).After(Pings(a))
    decreases |a|
  {
    assert Data([]) == [] && Pings([]) == [];
    hide Data, Pings, ReceiveJson;
    if a == [] {
      assert a + b == b;
      OutcomeAfterNothing(ReceiveJson(decoders, open, b));
    } else {
      var f, tail := a[0], a[1..];
      assert a + b == [f] + (tail + b);
      if f.opcode == PING || f.opcode == PONG {
        ControlFrameFirst(a);
        ControlPasses(decoders, open, f, tail + b);
        ReceiveAfter(decoders, open, tail, b);
        OutcomeAfterTwice(ReceiveJson(decoders, OpenAfter(open, tail), b),
                          if f.opcode == PING then [f.payload] else [], Pings(tail));
      } else {
        DataFrameFirst(a);
        Regrouped(Begun(open), f.payload, Data(tail));
        NextFrameDecides(decoders, open, f, tail + b);
        ReceiveAfter(decoders, Some(Unfinished(if open.Some? then open.value.opcode else f.opcode,
                                               Begun(open) + f.payload)), tail, b);
      }
    }
  }

  /** `frames` are one text message that was delivered as `message`. */
  predicate Carried<J(==)>(
    decoders: Decoders<J>, open: Option<Unfinished>, frames: seq<Frame>, message: J, pings: seq<Bytes>)
  {
    && TextOpen(open) && OneText(frames, open.Some?)
    && |Begun(open) + Data(frames)| <= MAX_SERVER_MESSAGE_BYTES
    && decoders.json(Begun(open) + Data(frames)) == Some(message)
    && pings == Pings(frames)
  }

  lemma CarriedAfterControl<J>(
    decoders: Decoders<J>, open: Option<Unfinished>, f: Frame, tail: seq<Frame>, message: J, pings: seq<Bytes>)
    requires f.opcode == PING || f.opcode == PONG
    requires Carried(decoders, open, tail, message, pings)
    ensures Carried(decoders, open, [f] + tail, message, if f.opcode == PING then [f.payload] + pings else pings)
  {
    assert ([f] + tail)[1..] == tail;
    assert Data([f] + tail) == Data(tail);
  }

  lemma CarriedAfterFragment<J>(
    decoders: Decoders<J>, open: Option<Unfinished>, f: Frame, tail: seq<Frame>, message: J, pings: seq<Bytes>)
    requires TextOpen(open) && !f.final && f.opcode == (if open.Some? then CONTINUATION else TEXT)
    requires Carried(decoders, Some(Unfinished(TEXT, Begun(open) + f.payload)), tail, message, pings)
    ensures Carried(decoders, open, [f] + tail, message, pings)
  {
    assert ([f] + tail)[1..] == tail;
    assert Begun(open) + f.payload + Data(tail) == Begun(open) + Data([f] + tail);
  }

  lemma CarriedByLast<J>(decoders: Decoders<J>, open: Option<Unfinished>, f: Frame, message: J)
    requires TextOpen(open) && f.final && f.opcode == (if open.Some? then CONTINUATION else TEXT)
    requires |Begun(open) + f.payload| <= MAX_SERVER_MESSAGE_BYTES
    requires decoders.json(Begun(open) + f.payload) == Some(message)
    ensures Carried(decoders, open, [f], message, [])
  {
    assert [f][1..] == [];
    assert Begun(open) + Data([f]) == Begun(open) + f.payload;
  }

  /** Nothing else is delivered: a delivered message is the payload of one text message. */
  lemma {:induction false} DeliveredIsOneText<J>(decoders: Decoders<J>, open: Option<Unfinished>, frames: seq<Frame>)
    returns (consumed: seq<Frame>)
    requires ReceiveJson(decoders, open, frames).Delivered?
    ensures var d := ReceiveJson(decoders, open, frames);
      frames == consumed + d.rest && Carried(decoders, open, consumed, d.message, d.pings)
    decreases |frames|
  {
    hide Carried, Data, Pings;
    var f, tail := frames[0], frames[1..];
    var d := ReceiveJson(decoders, open, frames);
    assert frames == [f] + tail;
    assert open.None? ==> Begun(open) + f.payload == f.payload;
    if f.opcode == PING || f.opcode == PONG {
      var front := DeliveredIsOneText(decoders, open, tail);
      CarriedAfterControl(decoders, open, f, front, d.message, ReceiveJson(decoders, open, tail).pings);
      consumed := [f] + front;
    } else if f.final {
      CarriedByLast(decoders, open, f, d.message);
      consumed := [f];
    } else {
      var opcode := if open.Some? then open.value.opcode else f.opcode;
      var front := DeliveredIsOneText(decoders, Some(Unfinished(opcode, Begun(open) + f.payload)), tail);
      assert opcode == TEXT by {
        CarriedIsText(decoders, Some(Unfinished(opcode, Begun(open) + f.payload)), front, d.message, d.pings);
      }
      CarriedAfterFragment(decoders, open, f, front, d.message, d.pings);
      consumed := [f] + front;
    }
  }

  lemma CarriedIsText<J>(
    decoders: Decoders<J>, open: Option<Unfinished>, frames: seq<Frame>, message: J, pings: seq<Bytes>)
    requires Carried(decoders, open, frames, message, pings)
    ensures TextOpen(open)
  {
  }
}
