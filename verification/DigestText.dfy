/** Printing and parsing of SHA-256 digests (`Sha256Digest` in types.rs). */
module DigestText {
  import opened Wrappers

  type byte = n: nat | n < 256

  type Digest = d: seq<byte> | |d| == 32 witness seq(32, _ => 0)

  predicate IsLowerHex(c: char) {
    '0' <= c <= '9' || 'a' <= c <= 'f'
  }

  function HexDigit(n: nat): char
    requires n < 16
  {
    if n < 10 then '0' + n as char else 'a' + (n - 10) as char
  }

  function HexValue(c: char): nat
    requires IsLowerHex(c)
  {
    if c <= '9' then (c - '0') as nat else (c - 'a') as nat + 10
  }

  /** Two digits a byte, the high half first. */
  function HexText(bytes: seq<byte>): string {
    seq(2 * |bytes|, i requires 0 <= i < 2 * |bytes| =>
      if i % 2 == 0 then HexDigit(bytes[i / 2] / 16) else HexDigit(bytes[i / 2] % 16))
  }

  predicate IsDigestText(text: string) {
    |text| == 64 && forall i :: 0 <= i < 64 ==> IsLowerHex(text[i])
  }

  function ByteAt(text: string, index: nat): byte
    requires 2 * index + 1 < |text|
    requires IsLowerHex(text[2 * index]) && IsLowerHex(text[2 * index + 1])
  {
    16 * HexValue(text[2 * index]) + HexValue(text[2 * index + 1])
  }

  function ParseDigest(text: string): Option<Digest> {
    if IsDigestText(text)
    then Some(seq(32, i requires 0 <= i < 32 && IsDigestText(text) => ByteAt(text, i)))
    else None
  }

  lemma DigitOfValue(c: char)
    requires IsLowerHex(c)
    ensures HexValue(c) < 16 && HexDigit(HexValue(c)) == c
  {
  }

  lemma ValueOfDigit(n: nat)
    requires n < 16
    ensures IsLowerHex(HexDigit(n)) && HexValue(HexDigit(n)) == n
  {
  }

  lemma Halves(high: nat, low: nat)
    requires high < 16 && low < 16
    ensures (16 * high + low) / 16 == high
    ensures (16 * high + low) % 16 == low
  {
  }

  /** What is printed is accepted and read back unchanged. */
  lemma PrintThenParse(d: Digest)
    ensures ParseDigest(HexText(d)) == Some(d)
  {
    var text := HexText(d);
    forall i | 0 <= i < 64 ensures IsLowerHex(text[i]) {
      ValueOfDigit(d[i / 2] / 16);
      ValueOfDigit(d[i / 2] % 16);
    }
    forall i | 0 <= i < 32 ensures ByteAt(text, i) == d[i] {
      assert text[2 * i] == HexDigit(d[i] / 16) && text[2 * i + 1] == HexDigit(d[i] % 16);
      ValueOfDigit(d[i] / 16);
      ValueOfDigit(d[i] % 16);
      assert 16 * (d[i] / 16) + d[i] % 16 == d[i];
    }
    assert ParseDigest(text).value == d;
  }

  /** Only the printed form of a digest is accepted: no upper case, no second spelling. */
  lemma ParseThenPrint(text: string)
    requires ParseDigest(text).Some?
    ensures HexText(ParseDigest(text).value) == text
  {
    var d := ParseDigest(text).value;
    forall i | 0 <= i < 64 ensures HexText(d)[i] == text[i] {
      var k := i / 2;
      DigitOfValue(text[2 * k]);
      DigitOfValue(text[2 * k + 1]);
      Halves(HexValue(text[2 * k]), HexValue(text[2 * k + 1]));
      assert d[k] == ByteAt(text, k);
      assert i == 2 * k || i == 2 * k + 1;
    }
    assert HexText(d) == text;
  }

  lemma HexTextAppend(bytes: seq<byte>, b: byte)
    ensures HexText(bytes + [b]) == HexText(bytes) + [HexDigit(b / 16), HexDigit(b % 16)]
  {
    var longer := HexText(bytes + [b]);
    forall i | 0 <= i < 2 * |bytes| ensures longer[i] == HexText(bytes)[i] {
      assert (bytes + [b])[i / 2] == bytes[i / 2];
    }
  }

  const HEX: string := "0123456789abcdef"

  /** 64 characters, two for each byte, the high half first. */
  predicate Spells(text: string, d: Digest) {
    |text| == 64 && forall k :: 0 <= k < 32 ==> text[2 * k] == HEX[d[k] / 16] && text[2 * k + 1] == HEX[d[k] % 16]
  }

  predicate HexOnly(text: string) {
    |text| == 64 && forall i :: 0 <= i < 64 ==> text[i] in HEX
  }

  lemma HexDigitIs(n: nat)
    requires n < 16
    ensures HexDigit(n) == HEX[n]
  {
  }

  lemma HexTextSpells(d: Digest)
    ensures Spells(HexText(d), d)
  {
    hide HexDigit;
    var text := HexText(d);
    forall k | 0 <= k < 32 ensures text[2 * k] == HEX[d[k] / 16] && text[2 * k + 1] == HEX[d[k] % 16] {
      HexDigitIs(d[k] / 16);
      HexDigitIs(d[k] % 16);
    }
  }

  method Display(d: Digest) returns (text: string)
    ensures text == HexText(d) && Spells(text, d)
  {
    text := "";
    for i := 0 to 32
      invariant text == HexText(d[..i])
    {
      HexTextAppend(d[..i], d[i]);
      assert d[..i + 1] == d[..i] + [d[i]];
      text := text + [HexDigit(d[i] / 16), HexDigit(d[i] % 16)];
    }
    assert d[..32] == d;
    HexTextSpells(d);
  }

  lemma DigestTextIff(text: string)
    ensures IsDigestText(text) <==> HexOnly(text)
  {
    forall c: char ensures IsLowerHex(c) <==> c in HEX {
      LowerHexIff(c);
    }
  }

  lemma ParsedSpells(text: string)
    requires ParseDigest(text).Some?
    ensures Spells(text, ParseDigest(text).value)
  {
    hide HexText, ParseDigest, Spells;
    ParseThenPrint(text);
    HexTextSpells(ParseDigest(text).value);
  }

  lemma LowerHexIff(c: char)
    ensures IsLowerHex(c) <==> c in HEX
  {
    if IsLowerHex(c) {
      DigitOfValue(c);
      assert HEX[HexValue(c)] == c;
    }
  }

  method FromStr(text: string) returns (r: Option<Digest>)
    ensures r == ParseDigest(text)
    ensures r.Some? <==> HexOnly(text)
    ensures r.Some? ==> Spells(text, r.value)
  {
    hide HexOnly, Spells;
    DigestTextIff(text);
    if |text| != 64 || exists i :: 0 <= i < 64 && !IsLowerHex(text[i]) {
      return None;
    }
    var bytes := new byte[32](_ => 0);
    for index := 0 to 32
      invariant forall i :: 0 <= i < index ==> bytes[i] == ByteAt(text, i)
    {
      bytes[index] := ByteAt(text, index);
    }
    assert bytes[..] == ParseDigest(text).value;
    r := Some(bytes[..]);
    ParsedSpells(text);
  }
}
