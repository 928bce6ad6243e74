/** The bytes of a frame one by one, as section 5.2 of RFC 6455 draws them, against the codec. */
module WebSocketWire {
  import opened Wrappers
  import opened WebSocketFraming

  /** Where the length field ends. */
  function HeadLength(width: Width): nat {
    match width
    case Short => 2
    case Two => 4
    case Eight => 10
  }

  /** The length in the seven bits beside the mask bit, or in the two or eight bytes behind them, the highest first. */
  predicate LengthOnWire(field: Bytes, n: nat, masked: bool, width: Width)
    requires |field| == HeadLength(width) - 1
  {
    && (field[0] & 0x80 != 0 <==> masked)
    && match width
       case Short => n < 126 && OfByte(field[0] & 0x7F) == n
       case Two =>
         && OfByte(field[0] & 0x7F) == 126
         && n == OfByte(field[1]) * 0x100 + OfByte(field[2])
       case Eight =>
         && OfByte(field[0] & 0x7F) == 127
         && n == OfByte(field[1]) * 0x100_0000_0000_0000 + OfByte(field[2]) * 0x1_0000_0000_0000
                 + OfByte(field[3]) * 0x100_0000_0000 + OfByte(field[4]) * 0x1_0000_0000
                 + OfByte(field[5]) * 0x100_0000 + OfByte(field[6]) * 0x1_0000
                 + OfByte(field[7]) * 0x100 + OfByte(field[8])
         && n < 0x8000_0000_0000_0000
  }

  /** The mask, if any, and the payload, byte k combined with byte k mod 4 of the mask. */
  predicate BodyOnWire(body: Bytes, payload: Bytes, mask: Option<Bytes>) {
    if mask.Some? then
      && |mask.value| == 4 && |body| == 4 + |payload| && body[..4] == mask.value
      && forall k :: 0 <= k < |payload| ==> body[4 + k] == payload[k] ^ mask.value[k % 4]
    else |body| == |payload| && forall k :: 0 <= k < |payload| ==> body[k] == payload[k]
  }

  /** Final bit and opcode, the length, and the body. */
  predicate OnWire(bytes: Bytes, f: Frame, mask: Option<Bytes>, width: Width) {
    && |bytes| >= HeadLength(width)
    && (bytes[0] & 0x80 != 0 <==> f.final) && bytes[0] & 0x7F == f.opcode
    && LengthOnWire(bytes[1..HeadLength(width)], |f.payload|, mask.Some?, width)
    && BodyOnWire(bytes[HeadLength(width)..], f.payload, mask)
  }

  /** Up to 125 bytes in the seven bits, up to 65535 in two bytes, and the rest in eight. */
  function Shortest(n: nat): Width {
    if n <= 125 then Short else if n < 0x1_0000 then Two else Eight
  }

  // ------------------------------------------------------------ numbers

  lemma UnpackTwo(s: Bytes)
    requires |s| == 2
    ensures Unpack(s) == OfByte(s[0]) * 0x100 + OfByte(s[1])
  {
    hide OfByte;
    assert s[..1][..0] == [] && s[..1][0] == s[0];
    assert Unpack(s[..1]) == OfByte(s[0]);
  }

  lemma UnpackFour(s: Bytes)
    requires |s| == 4
    ensures Unpack(s) == OfByte(s[0]) * 0x100_0000 + OfByte(s[1]) * 0x1_0000 + OfByte(s[2]) * 0x100 + OfByte(s[3])
  {
    hide OfByte;
    UnpackTwo(s[..2]);
    assert s[..3][..2] == s[..2];
    assert Unpack(s[..3]) == Unpack(s[..2]) * 256 + OfByte(s[2]);
  }

  lemma UnpackEight(s: Bytes)
    requires |s| == 8
    ensures Unpack(s) == OfByte(s[0]) * 0x100_0000_0000_0000 + OfByte(s[1]) * 0x1_0000_0000_0000
                         + OfByte(s[2]) * 0x100_0000_0000 + OfByte(s[3]) * 0x1_0000_0000
                         + OfByte(s[4]) * 0x100_0000 + OfByte(s[5]) * 0x1_0000 + OfByte(s[6]) * 0x100 + OfByte(s[7])
  {
    hide OfByte;
    UnpackFour(s[..4]);
    assert s[..5][..4] == s[..4] && s[..6][..5] == s[..5] && s[..7][..6] == s[..6];
    assert Unpack(s[..5]) == Unpack(s[..4]) * 256 + OfByte(s[4]);
    assert Unpack(s[..6]) == Unpack(s[..5]) * 256 + OfByte(s[5]);
    assert Unpack(s[..7]) == Unpack(s[..6]) * 256 + OfByte(s[6]);
  }

  // ------------------------------------------------------------ the fields

  lemma FirstByteBits(b: bv8, final: bool, opcode: bv8)
    requires opcode <= 0xF
    ensures b == FirstByte(final, opcode) <==> (b & 0x80 != 0 <==> final) && b & 0x7F == opcode
  {
  }

  lemma LengthByteBits(b: bv8, masked: bool, short: nat)
    requires short < 128
    ensures b == LengthByte(masked, short) <==> (b & 0x80 != 0 <==> masked) && OfByte(b & 0x7F) == short
  {
    hide ToByte, OfByte, LengthByte, ShortLength, TopBitSet;
    LengthByteFields(masked, short);
    LengthByteInverse(b);
    assert ShortLength(b) == OfByte(b & 0x7F) && (TopBitSet(b) <==> b & 0x80 != 0) by {
      NamedBits(b);
    }
    NamedBits(LengthByte(masked, short));
  }

  lemma NamedBits(b: bv8)
    ensures ShortLength(b) == OfByte(b & 0x7F) && (TopBitSet(b) <==> b & 0x80 != 0)
  {
    hide OfByte;
  }

  lemma PackIff(n: nat, width: nat, s: Bytes)
    requires n < Pow256(width) && |s| == width
    ensures s == Pack(n, width) <==> Unpack(s) == n
  {
    hide Pack, Unpack;
    PackUnpack(s);
    UnpackPack(n, width);
  }

  /** A length field is the one written for `n` exactly when it reads as `n` on the wire. */
  lemma LengthFieldIff(field: Bytes, n: nat, masked: bool, width: Width)
    requires width.Holds(n) && |field| == HeadLength(width) - 1
    ensures field == LengthField(n, masked, width) <==> LengthOnWire(field, n, masked, width)
  {
    hide LengthByte, Pack, Unpack, OfByte;
    assert field == [field[0]] + field[1..];
    match width
    case Short =>
      LengthByteBits(field[0], masked, n);
    case Two =>
      LengthByteBits(field[0], masked, 126);
      assert Pow256(2) == 0x1_0000;
      PackLength(n, 2);
      PackIff(n, 2, field[1..]);
      UnpackTwo(field[1..]);
      SplitFirst(field, LengthByte(masked, 126), field[0], Pack(n, 2), field[1..]);
    case Eight =>
      LongFieldIff(field, n, masked);
  }

  lemma LongFieldIff(field: Bytes, n: nat, masked: bool)
    requires n < 0x8000_0000_0000_0000 && |field| == 9
    ensures field == LengthField(n, masked, Eight) <==> LengthOnWire(field, n, masked, Eight)
  {
    hide LengthByte, Pack, Unpack, OfByte, Pow256;
    LengthByteBits(field[0], masked, 127);
    EightBytes();
    PackLength(n, 8);
    PackIff(n, 8, field[1..]);
    UnpackEight(field[1..]);
    SplitFirst(field, LengthByte(masked, 127), field[0], Pack(n, 8), field[1..]);
  }

  lemma SplitFirst(field: Bytes, a: bv8, b: bv8, s: Bytes, t: Bytes)
    requires field == [b] + t
    ensures field == [a] + s <==> a == b && s == t
  {
    if field == [a] + s {
      assert field[0] == a && field[1..] == s && field[1..] == t;
    }
  }

  lemma BodyIff(body: Bytes, payload: Bytes, mask: Option<Bytes>)
    requires mask.Some? ==> |mask.value| == 4
    ensures body == (if mask.Some? then mask.value + Masked(payload, mask.value) else payload)
       <==> BodyOnWire(body, payload, mask)
  {
    if mask.Some? && BodyOnWire(body, payload, mask) {
      assert body[4..] == Masked(payload, mask.value);
      assert body == body[..4] + body[4..];
    }
  }

  // ------------------------------------------------------------ the frame

  lemma FieldLength(n: nat, masked: bool, width: Width)
    requires width.Holds(n)
    ensures |LengthField(n, masked, width)| == HeadLength(width) - 1
  {
    PackLength(n, 2);
    PackLength(n, 8);
  }

  lemma ThreeParts(bytes: Bytes, first: bv8, field: Bytes, body: Bytes)
    ensures bytes == [first] + field + body
       <==> && |bytes| >= 1 + |field|
            && bytes[0] == first && bytes[1..1 + |field|] == field && bytes[1 + |field|..] == body
  {
    if |bytes| >= 1 + |field| {
      assert bytes == [bytes[0]] + bytes[1..1 + |field|] + bytes[1 + |field|..];
    }
    var whole := [first] + field + body;
    assert whole[0] == first && whole[1..1 + |field|] == field && whole[1 + |field|..] == body;
  }

  /** Bytes are the encoding of a frame exactly when they read so, one by one. */
  lemma EncodedIff(bytes: Bytes, f: Frame, mask: Option<Bytes>, width: Width)
    requires f.opcode <= 0xF && width.Holds(|f.payload|)
    requires mask.Some? ==> |mask.value| == 4
    ensures bytes == Encode(f, mask, width) <==> OnWire(bytes, f, mask, width)
  {
    hide FirstByte, LengthField, LengthOnWire, Masked, BodyOnWire;
    var n, head := |f.payload|, HeadLength(width);
    var body := if mask.Some? then mask.value + Masked(f.payload, mask.value) else f.payload;
    FieldLength(n, mask.Some?, width);
    ThreeParts(bytes, FirstByte(f.final, f.opcode), LengthField(n, mask.Some?, width), body);
    if |bytes| >= head {
      FirstByteBits(bytes[0], f.final, f.opcode);
      LengthFieldIff(bytes[1..head], n, mask.Some?, width);
      BodyIff(bytes[head..], f.payload, mask);
    }
  }

  /**
   What a receiver takes for a frame is on the wire so, byte by byte; and bytes that are on the wire
   so, in a form the receiver accepts, it takes for that frame.
   */
  lemma DecodedIff(rules: Rules, s: Bytes, f: Frame, rest: Bytes)
    requires rules.limit < 0x8000_0000_0000_0000 && |rest| <= |s|
    ensures Decode(rules, s) == Got(f, rest)
       <==> exists mask, width ::
              && f.opcode <= 0xF && Accepts(rules, f, mask, width)
              && OnWire(s[..|s| - |rest|], f, mask, width) && s[|s| - |rest|..] == rest
  {
    hide Decode, OnWire, Encode, Accepts;
    var bytes := s[..|s| - |rest|];
    if Decode(rules, s) == Got(f, rest) {
      var mask, width := DecodeSound(rules, s);
      assert bytes == Encode(f, mask, width) && s[|s| - |rest|..] == rest;
      EncodedIff(bytes, f, mask, width);
    }
    forall mask, width | f.opcode <= 0xF && Accepts(rules, f, mask, width)
                         && OnWire(bytes, f, mask, width) && s[|s| - |rest|..] == rest
      ensures Decode(rules, s) == Got(f, rest)
    {
      OnWireHolds(bytes, f, mask, width);
      EncodedIff(bytes, f, mask, width);
      DecodeEncode(rules, f, mask, width, rest);
      assert s == bytes + rest;
    }
  }

  lemma OnWireHolds(bytes: Bytes, f: Frame, mask: Option<Bytes>, width: Width)
    requires OnWire(bytes, f, mask, width)
    ensures width.Holds(|f.payload|) && (mask.Some? ==> |mask.value| == 4)
  {
    hide OfByte, ToByte;
    if width == Two {
      ByteRange(bytes[2]);
      ByteRange(bytes[3]);
    }
  }
}
