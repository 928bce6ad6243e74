/**
 The frame format of section 5.2 of RFC 6455, as the two clients write and read it: the viewer
 probe (rfb_websocket_probe.py) and the stricter API acceptance client (test-phase3-websocket.py).

 `Decode` says what a receiver makes of a byte stream. The classes in `ProbeSocket` and
 `StrictSocket` read the same stream in chunks of the network's choosing.
 */
module WebSocketFraming {
  import opened Wrappers

  type Bytes = seq<bv8>

  datatype Frame = Frame(final: bool, opcode: bv8, payload: Bytes)

  /** What a receiver insists on beyond clear reserved bits. */
  datatype Rules = Rules(strict: bool, limit: nat)

  // ------------------------------------------------------------ numbers and masks

  function ToByte(n: nat): bv8
    requires n < 256
  {
    n as bv8
  }

  function OfByte(b: bv8): nat {
    b as int
  }

  /** `struct.pack` in network order. */
  function Pack(n: nat, width: nat): Bytes {
    if width == 0 then [] else Pack(n / 256, width - 1) + [ToByte(n % 256)]
  }

  /** `struct.unpack` in network order. */
  function Unpack(s: Bytes): nat {
    if s == [] then 0 else Unpack(s[..|s| - 1]) * 256 + OfByte(s[|s| - 1])
  }

  function Pow256(width: nat): nat {
    if width == 0 then 1 else 256 * Pow256(width - 1)
  }

  lemma {:induction false} PackLength(n: nat, width: nat)
    ensures |Pack(n, width)| == width
  {
    if width > 0 {
      PackLength(n / 256, width - 1);
    }
  }

  lemma {:induction false} UnpackPack(n: nat, width: nat)
    requires n < Pow256(width)
    ensures Unpack(Pack(n, width)) == n
  {
    if width > 0 {
      hide ToByte, OfByte;
      var front := Pack(n / 256, width - 1);
      UnpackPack(n / 256, width - 1);
      assert Pack(n, width)[..|Pack(n, width)| - 1] == front;
      ByteValue(n % 256);
    }
  }

  lemma {:induction false} PackUnpack(s: Bytes)
    ensures Unpack(s) < Pow256(|s|)
    ensures Pack(Unpack(s), |s|) == s
  {
    if s != [] {
      hide ToByte, OfByte;
      var front, last := s[..|s| - 1], s[|s| - 1];
      PackUnpack(front);
      ByteRange(last);
      var n := Unpack(s);
      assert n == Unpack(front) * 256 + OfByte(last);
      LastByte(Unpack(front), OfByte(last), Pow256(|front|));
      assert s == front + [last];
    }
  }

  lemma LastByte(front: nat, last: nat, p: nat)
    requires last < 256 && front < p
    ensures (front * 256 + last) / 256 == front && (front * 256 + last) % 256 == last
    ensures front * 256 + last < 256 * p
  {
  }

  lemma ByteModulo(n: nat)
    requires n < 256
    ensures OfByte(ToByte(n)) == n % 256
  {
  }

  lemma ByteValue(n: nat)
    requires n < 256
    ensures OfByte(ToByte(n)) == n
  {
    hide ToByte, OfByte;
    ByteModulo(n);
  }

  lemma ByteRange(b: bv8)
    ensures OfByte(b) < 256
    ensures ToByte(OfByte(b)) == b
  {
  }

  function Masked(payload: Bytes, mask: Bytes): Bytes
    requires |mask| == 4
  {
    seq(|payload|, i requires 0 <= i < |payload| => payload[i] ^ mask[i % 4])
  }

  lemma MaskTwice(payload: Bytes, mask: Bytes)
    requires |mask| == 4
    ensures |Masked(payload, mask)| == |payload|
    ensures forall i :: 0 <= i < |payload| ==> Masked(payload, mask)[i] == payload[i] ^ mask[i % 4]
    ensures Masked(Masked(payload, mask), mask) == payload
  {
    forall i | 0 <= i < |payload| ensures Masked(Masked(payload, mask), mask)[i] == payload[i] {
      XorTwice(payload[i], mask[i % 4]);
    }
  }

  lemma XorTwice(a: bv8, b: bv8)
    ensures (a ^ b) ^ b == a
  {
  }

  // ------------------------------------------------------------ writing

  /** The three length encodings; a sender may choose any that holds the length. */
  datatype Width = Short | Two | Eight
  {
    predicate Holds(n: nat) {
      match this
      case Short => n < 126
      case Two => n < 0x1_0000
      case Eight => n < 0x8000_0000_0000_0000
    }
  }

  function Minimal(n: nat): Width {
    if n < 126 then Short else if n <= 65535 then Two else Eight
  }

  function LengthByte(masked: bool, short: nat): bv8
    requires short < 128
  {
    (if masked then 0x80 else 0) | ToByte(short)
  }

  function FirstByte(final: bool, opcode: bv8): bv8 {
    (if final then 0x80 else 0) | opcode
  }

  function LengthField(n: nat, masked: bool, width: Width): Bytes
    requires width.Holds(n)
  {
    match width
    case Short => [LengthByte(masked, n)]
    case Two => [LengthByte(masked, 126)] + Pack(n, 2)
    case Eight => [LengthByte(masked, 127)] + Pack(n, 8)
  }

  /** A frame on the wire. */
  function Encode(f: Frame, mask: Option<Bytes>, width: Width): Bytes
    requires width.Holds(|f.payload|)
    requires mask.Some? ==> |mask.value| == 4
  {
    [FirstByte(f.final, f.opcode)] + LengthField(|f.payload|, mask.Some?, width)
    + (if mask.Some? then mask.value + Masked(f.payload, mask.value) else f.payload)
  }

  /** What a conforming server sends: unmasked, with the shortest length. */
  function Canonical(f: Frame): Bytes
    requires |f.payload| < 0x8000_0000_0000_0000
  {
    Encode(f, None, Minimal(|f.payload|))
  }

  // ------------------------------------------------------------ reading

  /** Final bit of the first byte, mask bit of the second. */
  predicate TopBitSet(b: bv8) {
    b & 0x80 != 0
  }

  predicate ReservedBits(b: bv8) {
    b & 0x70 != 0
  }

  function Opcode(b: bv8): bv8 {
    b & 0x0F
  }

  function ShortLength(b: bv8): nat {
    OfByte(b & 0x7F)
  }

  datatype Decoded =
    | Got(frame: Frame, rest: Bytes)
    | Truncated
    | Invalid

  predicate ControlAllowed(opcode: bv8, final: bool, length: nat) {
    opcode >= 0x8 ==> final && length <= 125
  }

  /** The frame at the head of a stream: everything after its length field. */
  function Body(rules: Rules, final: bool, opcode: bv8, masked: bool, length: nat, s: Bytes): Decoded {
    if rules.strict && !ControlAllowed(opcode, final, length) then Invalid
    else if length > rules.limit then Invalid
    else if masked then
      if |s| < 4 + length then Truncated
      else Got(Frame(final, opcode, Masked(s[4..4 + length], s[..4])), s[4 + length..])
    else
      if |s| < length then Truncated
      else Got(Frame(final, opcode, s[..length]), s[length..])
  }

  /** The length field, with the strict receiver's objection to a longer form than needed. */
  datatype LengthRead = Length(length: nat, rest: Bytes) | LengthTruncated | LengthInvalid

  function ReadLength(strict: bool, short: nat, s: Bytes): LengthRead {
    if short == 126 then
      if |s| < 2 then LengthTruncated
      else if strict && Unpack(s[..2]) < 126 then LengthInvalid
      else Length(Unpack(s[..2]), s[2..])
    else if short == 127 then
      if |s| < 8 then LengthTruncated
      else if strict && (TopBitSet(s[0]) || Unpack(s[..8]) <= 0xFFFF) then LengthInvalid
      else Length(Unpack(s[..8]), s[8..])
    else Length(short, s)
  }

  function Decode(rules: Rules, s: Bytes): (d: Decoded)
    ensures d.Got? ==> |d.rest| + 2 <= |s|
  {
    if |s| < 2 then Truncated
    else if ReservedBits(s[0]) then Invalid
    else if rules.strict && TopBitSet(s[1]) then Invalid
    else
      var length := ReadLength(rules.strict, ShortLength(s[1]), s[2..]);
      match length
      case LengthTruncated => Truncated
      case LengthInvalid => Invalid
      case Length(n, rest) => Body(rules, TopBitSet(s[0]), Opcode(s[0]), TopBitSet(s[1]), n, rest)
  }

  // ------------------------------------------------------------ the codec round trip

  lemma FirstByteFields(final: bool, opcode: bv8)
    requires opcode <= 0xF
    ensures var b := FirstByte(final, opcode);
      !ReservedBits(b) && (TopBitSet(b) <==> final) && Opcode(b) == opcode
  {
  }

  lemma LengthByteFields(masked: bool, short: nat)
    requires short < 128
    ensures var b := LengthByte(masked, short);
      (TopBitSet(b) <==> masked) && ShortLength(b) == short
  {
    ByteValue(short);
    SevenBits(ToByte(short), masked);
  }

  lemma SevenBits(b: bv8, masked: bool)
    requires OfByte(b) < 128
    ensures (((if masked then 0x80 else 0) | b) & 0x7F) == b
    ensures (((if masked then 0x80 else 0) | b) & 0x80) != 0 <==> masked
  {
    assert b < 128;
  }

  /** The top bit of an eight-byte length is clear when the length is below 2^63. */
  lemma TopBit(s: Bytes)
    requires |s| == 8
    ensures !TopBitSet(s[0]) <==> Unpack(s) < 0x8000_0000_0000_0000
  {
    hide ToByte, OfByte, TopBitSet;
    ByteRange(s[0]);
    HighBit(s[0]);
    UnpackFront(s, 1);
    assert s[..1] == [s[0]];
    assert Unpack([s[0]]) == OfByte(s[0]) by {
      assert [s[0]][..0] == [];
    }
    assert Pow256(7) == 0x100_0000_0000_0000 by {
      assert Pow256(3) == 0x100_0000;
      assert Pow256(7) == 256 * (256 * (256 * (256 * Pow256(3))));
    }
  }

  lemma HighBit(b: bv8)
    ensures !TopBitSet(b) <==> OfByte(b) < 128
  {
    assert b & 0x80 == 0 <==> b < 128;
  }

  /** Network order: the front bytes weigh more than all that follow. */
  lemma {:induction false} UnpackFront(s: Bytes, k: nat)
    requires k <= |s|
    ensures Unpack(s[..k]) * Pow256(|s| - k) <= Unpack(s) < (Unpack(s[..k]) + 1) * Pow256(|s| - k)
  {
    hide OfByte, ToByte;
    if k == |s| {
      assert s[..k] == s;
    } else {
      var front := s[..|s| - 1];
      UnpackFront(front, k);
      assert front[..k] == s[..k];
      ByteRange(s[|s| - 1]);
      OneMoreByte(Unpack(s[..k]), Pow256(|s| - 1 - k), Unpack(front), OfByte(s[|s| - 1]));
    }
  }

  lemma OneMoreByte(a: nat, p: nat, u: nat, b: nat)
    requires a * p <= u < (a + 1) * p && b < 256
    ensures a * (256 * p) <= u * 256 + b < (a + 1) * (256 * p)
  {
    assert a * (256 * p) == 256 * (a * p);
    assert (a + 1) * (256 * p) == 256 * ((a + 1) * p);
  }

  lemma LengthRoundTrip(strict: bool, n: nat, masked: bool, width: Width, tail: Bytes)
    requires width.Holds(n)
    ensures var field := LengthField(n, masked, width) + tail;
      && |field| > 0
      && (TopBitSet(field[0]) <==> masked)
      && ReadLength(strict, ShortLength(field[0]), field[1..])
         == if strict && width != Minimal(n) then LengthInvalid else Length(n, tail)
  {
    hide ShortLength, TopBitSet, LengthByte, FirstByte, Opcode, ReservedBits, Pack, Unpack;
    var field := LengthField(n, masked, width) + tail;
    match width
    case Short =>
      LengthByteFields(masked, n);
      assert field[1..] == tail;
    case Two =>
      LengthByteFields(masked, 126);
      PackLength(n, 2);
      assert Pow256(2) == 0x1_0000;
      UnpackPack(n, 2);
      assert field[1..] == Pack(n, 2) + tail;
      assert field[1..][..2] == Pack(n, 2);
    case Eight =>
      LengthByteFields(masked, 127);
      PackLength(n, 8);
      EightBytes();
      UnpackPack(n, 8);
      assert field[1..] == Pack(n, 8) + tail;
      assert field[1..][..8] == Pack(n, 8);
      TopBit(Pack(n, 8));
  }

  lemma EightBytes()
    ensures Pow256(8) == 0x1_0000_0000_0000_0000
  {
    assert Pow256(4) == 0x1_0000_0000;
    assert Pow256(8) == 256 * (256 * (256 * (256 * Pow256(4))));
  }

  /** Whether a receiver with these rules should take a frame so encoded. */
  predicate Accepts(rules: Rules, f: Frame, mask: Option<Bytes>, width: Width) {
    && |f.payload| <= rules.limit
    && (rules.strict ==> mask.None? && width == Minimal(|f.payload|)
                         && ControlAllowed(f.opcode, f.final, |f.payload|))
  }

  /**
   Decoding undoes encoding for every opcode, mask, payload and choice of length field. The
   strict receiver turns away exactly the masked, the longer than needed and the misshapen
   control frames, and both turn away payloads above their bound.
   */
  lemma DecodeEncode(rules: Rules, f: Frame, mask: Option<Bytes>, width: Width, tail: Bytes)
    requires f.opcode <= 0xF && width.Holds(|f.payload|)
    requires mask.Some? ==> |mask.value| == 4
    ensures Decode(rules, Encode(f, mask, width) + tail)
         == if Accepts(rules, f, mask, width) then Got(f, tail) else Invalid
  {
    hide ShortLength, TopBitSet, LengthByte, FirstByte, Opcode, ReservedBits, LengthField, ReadLength, Body;
    var n := |f.payload|;
    var body := if mask.Some? then mask.value + Masked(f.payload, mask.value) else f.payload;
    var s := Encode(f, mask, width) + tail;
    var field := LengthField(n, mask.Some?, width) + (body + tail);
    assert s == [FirstByte(f.final, f.opcode)] + field;
    FirstByteFields(f.final, f.opcode);
    LengthRoundTrip(rules.strict, n, mask.Some?, width, body + tail);
    assert s[1] == field[0] && s[2..] == field[1..];
    BodyRoundTrip(rules, f, mask, tail);
  }

  lemma BodyRoundTrip(rules: Rules, f: Frame, mask: Option<Bytes>, tail: Bytes)
    requires mask.Some? ==> |mask.value| == 4
    ensures var body := if mask.Some? then mask.value + Masked(f.payload, mask.value) else f.payload;
      Body(rules, f.final, f.opcode, mask.Some?, |f.payload|, body + tail)
      == if |f.payload| > rules.limit
            || (rules.strict && !ControlAllowed(f.opcode, f.final, |f.payload|)) then Invalid
         else Got(f, tail)
  {
    if mask.Some? {
      var s := mask.value + Masked(f.payload, mask.value) + tail;
      assert s[..4] == mask.value;
      assert s[4..4 + |f.payload|] == Masked(f.payload, mask.value);
      assert s[4 + |f.payload|..] == tail;
      MaskTwice(f.payload, mask.value);
    } else {
      assert (f.payload + tail)[..|f.payload|] == f.payload;
      assert (f.payload + tail)[|f.payload|..] == tail;
    }
  }

  // ------------------------------------------------------------ nothing else is accepted

  lemma FirstByteInverse(b: bv8)
    requires !ReservedBits(b)
    ensures FirstByte(TopBitSet(b), Opcode(b)) == b
    ensures Opcode(b) <= 0xF
  {
  }

  lemma LengthByteInverse(b: bv8)
    ensures ShortLength(b) < 128
    ensures LengthByte(TopBitSet(b), ShortLength(b)) == b
  {
    ByteRange(b & 0x7F);
    assert b & 0x7F < 128;
    assert (if b & 0x80 != 0 then 0x80 else 0) | (b & 0x7F) == b;
  }

  /** A length field that was read is the one that was written. */
  lemma LengthInverse(strict: bool, b: bv8, s: Bytes) returns (width: Width)
    requires ReadLength(strict, ShortLength(b), s).Length?
    requires ReadLength(strict, ShortLength(b), s).length < 0x8000_0000_0000_0000
    ensures var r := ReadLength(strict, ShortLength(b), s);
      && width.Holds(r.length) && (strict ==> width == Minimal(r.length))
      && [b] + s == LengthField(r.length, TopBitSet(b), width) + r.rest
  {
    hide ShortLength, TopBitSet, LengthByte, FirstByte, Opcode, ReservedBits, Pack, Unpack;
    var short := ShortLength(b);
    var r := ReadLength(strict, short, s);
    LengthByteInverse(b);
    if short == 126 {
      width := Two;
      PackUnpack(s[..2]);
      assert Pow256(2) == 0x1_0000;
      assert s == s[..2] + s[2..];
    } else if short == 127 {
      width := Eight;
      PackUnpack(s[..8]);
      assert s == s[..8] + s[8..];
    } else {
      width := Short;
    }
  }

  lemma BodyInverse(rules: Rules, final: bool, opcode: bv8, masked: bool, length: nat, s: Bytes)
    returns (mask: Option<Bytes>)
    requires Body(rules, final, opcode, masked, length, s).Got?
    ensures var f, rest := Body(rules, final, opcode, masked, length, s).frame,
                           Body(rules, final, opcode, masked, length, s).rest;
      && f.final == final && f.opcode == opcode && |f.payload| == length <= rules.limit
      && (rules.strict ==> ControlAllowed(opcode, final, length))
      && mask.Some? == masked && (masked ==> |mask.value| == 4)
      && s == (if masked then mask.value + Masked(f.payload, mask.value) else f.payload) + rest
  {
    if masked {
      mask := Some(s[..4]);
      MaskTwice(s[4..4 + length], s[..4]);
      assert s == s[..4] + s[4..4 + length] + s[4 + length..];
    } else {
      mask := None;
    }
  }

  /**
   Whatever is decoded was encoded: an accepted frame is, byte for byte, some encoding of that
   frame, and for the strict receiver the canonical one.
   */
  lemma DecodeSound(rules: Rules, s: Bytes) returns (mask: Option<Bytes>, width: Width)
    requires rules.limit < 0x8000_0000_0000_0000
    requires Decode(rules, s).Got?
    ensures var f, rest := Decode(rules, s).frame, Decode(rules, s).rest;
      && f.opcode <= 0xF && width.Holds(|f.payload|)
      && (mask.Some? ==> |mask.value| == 4)
      && Accepts(rules, f, mask, width)
      && s == Encode(f, mask, width) + rest
  {
    hide ShortLength, TopBitSet, LengthByte, FirstByte, Opcode, ReservedBits, LengthField, ReadLength, Body, Masked;
    var f, rest := Decode(rules, s).frame, Decode(rules, s).rest;
    var length := ReadLength(rules.strict, ShortLength(s[1]), s[2..]);
    FirstByteInverse(s[0]);
    mask := BodyInverse(rules, TopBitSet(s[0]), Opcode(s[0]), TopBitSet(s[1]), length.length, length.rest);
    width := LengthInverse(rules.strict, s[1], s[2..]);
    var wire := if mask.Some? then mask.value + Masked(f.payload, mask.value) else f.payload;
    var field := LengthField(|f.payload|, mask.Some?, width);
    Regroup(s, [s[0]], field, wire, rest);
  }

  lemma Regroup(s: Bytes, first: Bytes, field: Bytes, wire: Bytes, rest: Bytes)
    requires |s| >= 2 && first == [s[0]] && [s[1]] + s[2..] == field + (wire + rest)
    ensures s == first + field + wire + rest
  {
    assert s == first + ([s[1]] + s[2..]);
  }

  /** The strict receiver accepts a frame exactly when the stream starts with its canonical encoding. */
  lemma StrictIffCanonical(limit: nat, f: Frame, s: Bytes, rest: Bytes)
    requires limit < 0x8000_0000_0000_0000
    ensures Decode(Rules(true, limit), s) == Got(f, rest)
       <==> && f.opcode <= 0xF && |f.payload| <= limit
            && ControlAllowed(f.opcode, f.final, |f.payload|)
            && s == Canonical(f) + rest
  {
    var rules := Rules(true, limit);
    if Decode(rules, s) == Got(f, rest) {
      var mask, width := DecodeSound(rules, s);
    } else if f.opcode <= 0xF && |f.payload| <= limit && s == Canonical(f) + rest {
      DecodeEncode(rules, f, None, Minimal(|f.payload|), rest);
    }
  }

  // ------------------------------------------------------------ whole streams

  /** The frames at the head of a stream, as far as they decode. */
  function Frames(rules: Rules, s: Bytes): seq<Frame>
    decreases |s|
  {
    var d := Decode(rules, s);
    if d.Got? then [d.frame] + Frames(rules, d.rest) else []
  }

  /** What is left of a stream when the next frame is incomplete or invalid. */
  function Leftover(rules: Rules, s: Bytes): Bytes
    decreases |s|
  {
    var d := Decode(rules, s);
    if d.Got? then Leftover(rules, d.rest) else s
  }

  /** How one frame was put on the wire. */
  datatype Encoding = Encoding(mask: Option<Bytes>, width: Width)

  predicate Sendable(rules: Rules, f: Frame, how: Encoding) {
    && f.opcode <= 0xF && how.width.Holds(|f.payload|)
    && (how.mask.Some? ==> |how.mask.value| == 4)
    && Accepts(rules, f, how.mask, how.width)
  }

  function Wire(rules: Rules, frames: seq<Frame>, how: seq<Encoding>): Bytes
    requires |frames| == |how|
    requires forall i :: 0 <= i < |frames| ==> Sendable(rules, frames[i], how[i])
  {
    if frames == [] then []
    else
      assert Sendable(rules, frames[0], how[0]);
      Encode(frames[0], how[0].mask, how[0].width) + Wire(rules, frames[1..], how[1..])
  }

  /** Any list of frames, encoded in any way the receiver accepts, is read back in order. */
  lemma {:induction false} StreamRoundTrip(
    rules: Rules, frames: seq<Frame>, how: seq<Encoding>, tail: Bytes)
    requires |frames| == |how|
    requires forall i :: 0 <= i < |frames| ==> Sendable(rules, frames[i], how[i])
    ensures Frames(rules, Wire(rules, frames, how) + tail) == frames + Frames(rules, tail)
    ensures Leftover(rules, Wire(rules, frames, how) + tail) == Leftover(rules, tail)
    decreases |frames|
  {
    hide Decode, Encode, Accepts;
    if frames == [] {
      assert Wire(rules, frames, how) + tail == tail;
      assert frames + Frames(rules, tail) == Frames(rules, tail);
    } else {
      var after := Wire(rules, frames[1..], how[1..]) + tail;
      assert Wire(rules, frames, how) + tail == Encode(frames[0], how[0].mask, how[0].width) + after;
      DecodeEncode(rules, frames[0], how[0].mask, how[0].width, after);
      StreamRoundTrip(rules, frames[1..], how[1..], tail);
      assert [frames[0]] + (frames[1..] + Frames(rules, tail)) == frames + Frames(rules, tail);
    }
  }

  /** These bytes are exactly these frames. */
  predicate Carries(rules: Rules, s: Bytes, frames: seq<Frame>) {
    Frames(rules, s) == frames && Leftover(rules, s) == []
  }

  lemma CarriesNothing(rules: Rules)
    ensures Carries(rules, [], [])
  {
  }

  /** Writing one more frame behind whole frames. */
  lemma {:induction false} CarriesOneMore(
    rules: Rules, s: Bytes, frames: seq<Frame>, f: Frame, mask: Option<Bytes>, width: Width)
    requires rules.limit < 0x8000_0000_0000_0000
    requires Carries(rules, s, frames) && Sendable(rules, f, Encoding(mask, width))
    ensures Carries(rules, s + Encode(f, mask, width), frames + [f])
    decreases |s|
  {
    hide Decode, Encode, Accepts;
    var wire := Encode(f, mask, width);
    if s == [] {
      DecodeEncode(rules, f, mask, width, []);
      assert wire + [] == wire && s + wire == wire;
      CarriesNothing(rules);
      StreamEnds(rules);
    } else {
      var d := Decode(rules, s);
      assert d.Got?;
      var m, w := DecodeSound(rules, s);
      DecodeEncode(rules, d.frame, m, w, d.rest + wire);
      assert s + wire == Encode(d.frame, m, w) + (d.rest + wire);
      CarriesOneMore(rules, d.rest, frames[1..], f, mask, width);
      assert [d.frame] + (frames[1..] + [f]) == frames + [f];
    }
  }

  lemma StreamEnds(rules: Rules)
    ensures Frames(rules, []) == [] && Leftover(rules, []) == []
  {
  }
}
