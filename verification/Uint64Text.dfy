/**
 The canonical uint64 text decoders: the conformance reference (validate.py), the character
 tests of test-phase3-websocket.py, and the regular expression that validate-docs.py,
 test-phase5-atspi-live.py and test-phase4-event-flood.py share.
 */
module Uint64Text {
  import opened Wrappers

  const UINT64_MAX := 0xFFFF_FFFF_FFFF_FFFF

  /** A JSON value: the decoders care only whether it is a string. */
  datatype Value = Text(text: string) | Other

  // ------------------------------------------------------------ Python's string operations

  predicate Ascii(c: char) {
    c as int < 128
  }

  predicate AsciiDigit(c: char) {
    '0' <= c <= '9'
  }

  /**
   `str.isdigit` also holds of digits outside ASCII; which ones is a parameter, and on ASCII
   they are the ten decimal digits.
   */
  type Digits = d: char -> bool | forall c :: Ascii(c) ==> (d(c) <==> AsciiDigit(c))
    witness (c: char) => AsciiDigit(c)

  function DigitValue(c: char): nat
    requires AsciiDigit(c)
  {
    c as int - '0' as int
  }

  function DigitChar(d: nat): char
    requires d < 10
  {
    ('0' as int + d) as char
  }

  predicate AllDigits(s: string) {
    forall i :: 0 <= i < |s| ==> AsciiDigit(s[i])
  }

  /** `int`. */
  function Number(s: string): nat
    requires AllDigits(s)
  {
    if s == [] then 0 else Number(s[..|s| - 1]) * 10 + DigitValue(s[|s| - 1])
  }

  /** `str`. */
  function Print(n: nat): string {
    if n < 10 then [DigitChar(n)] else Print(n / 10) + [DigitChar(n % 10)]
  }

  // ------------------------------------------------------------ the decoders

  /** `_canonical_uint64` of the conformance validator. */
  function Reference(isDigit: Digits, v: Value, allowZero: bool): Option<nat> {
    if v.Other? then None
    else
      var s := v.text;
      if s == [] || |s| > 20 || !(forall i :: 0 <= i < |s| ==> Ascii(s[i]))
         || !(forall i :: 0 <= i < |s| ==> isDigit(s[i])) then None
      else if |s| > 1 && s[0] == '0' then None
      else
        var parsed := Number(s);
        if parsed > UINT64_MAX || (parsed == 0 && !allowZero) then None else Some(parsed)
  }

  /** `parse_u64_string` of the WebSocket acceptance client. */
  function ByCharacters(isDigit: Digits, v: Value, minimum: nat): Option<nat> {
    if v.Other? then None
    else
      var s := v.text;
      if s == [] || (|s| > 1 && s[0] == '0') || !(forall i :: 0 <= i < |s| ==> Ascii(s[i]))
         || !(forall i :: 0 <= i < |s| ==> isDigit(s[i])) || |s| > 20 then None
      else
        var parsed := Number(s);
        if parsed < minimum || parsed > UINT64_MAX then None else Some(parsed)
  }

  /** A full match of `0|[1-9][0-9]{0,19}`. */
  predicate Matches(s: string) {
    s == "0" || (1 <= |s| <= 20 && '1' <= s[0] <= '9' && AllDigits(s[1..]))
  }

  lemma MatchesAreDigits(s: string)
    requires Matches(s)
    ensures AllDigits(s)
  {
    if s != "0" {
      assert forall i :: 0 < i < |s| ==> s[i] == s[1..][i - 1];
    }
  }

  /** `canonical_uint64` of the documentation validator and its two copies. */
  function ByPattern(v: Value, minimum: nat): Option<nat> {
    if v.Other? || !Matches(v.text) then None
    else
      MatchesAreDigits(v.text);
      var parsed := Number(v.text);
      if parsed < minimum || parsed > UINT64_MAX then None else Some(parsed)
  }

  // ------------------------------------------------------------ numbers and their digits

  predicate CanonicalDigits(s: string) {
    s != [] && AllDigits(s) && (|s| > 1 ==> s[0] != '0')
  }

  lemma {:induction false} PrintIsCanonical(n: nat)
    ensures CanonicalDigits(Print(n))
    ensures Number(Print(n)) == n
  {
    if n < 10 {
      assert Print(n)[..0] == [];
    } else {
      PrintIsCanonical(n / 10);
      var front := Print(n / 10);
      assert Print(n)[..|front|] == front;
      if |front| == 1 {
        assert Number(front) == DigitValue(front[0]) by {
          assert front[..0] == [];
        }
      }
    }
  }

  lemma {:induction false} CanonicalIsPrinted(s: string)
    requires CanonicalDigits(s)
    ensures Print(Number(s)) == s
    ensures |s| > 1 ==> Number(s) >= 10
  {
    var front, last := s[..|s| - 1], s[|s| - 1];
    if |s| == 1 {
      assert front == [];
      assert Number(s) == DigitValue(last);
      assert s == [last];
    } else {
      CanonicalIsPrinted(front);
      assert Number(front) >= 1 by {
        if |front| == 1 {
          assert front[..0] == [];
        }
      }
      assert Number(s) / 10 == Number(front) && Number(s) % 10 == DigitValue(last);
      assert s == front + [last];
    }
  }

  function Pow10(k: nat): nat {
    if k == 0 then 1 else 10 * Pow10(k - 1)
  }

  lemma {:induction false} PrintLength(n: nat, k: nat)
    requires k > 0 && n < Pow10(k)
    ensures |Print(n)| <= k
    decreases k
  {
    if n >= 10 {
      PrintLength(n / 10, k - 1);
    }
  }

  lemma TwentyDigits()
    ensures UINT64_MAX < Pow10(20)
  {
    assert Pow10(5) == 100000;
    assert Pow10(10) == 10 * (10 * (10 * (10 * (10 * Pow10(5)))));
    assert Pow10(15) == 10 * (10 * (10 * (10 * (10 * Pow10(10)))));
    assert Pow10(20) == 10 * (10 * (10 * (10 * (10 * Pow10(15)))));
  }

  // ------------------------------------------------------------ agreement

  lemma MatchesIffCanonical(s: string)
    ensures Matches(s) <==> CanonicalDigits(s) && |s| <= 20
  {
    if Matches(s) {
      MatchesAreDigits(s);
    }
    if CanonicalDigits(s) && |s| == 1 && s[0] == '0' {
      assert s == "0";
    }
  }

  lemma CharactersIffCanonical(isDigit: Digits, s: string)
    ensures (s != [] && (forall i :: 0 <= i < |s| ==> Ascii(s[i])) && (forall i :: 0 <= i < |s| ==> isDigit(s[i]))
             && !(|s| > 1 && s[0] == '0'))
       <==> CanonicalDigits(s)
  {
  }

  /** All copies decode every value alike, whatever `isdigit` holds outside ASCII. */
  lemma DecodersAgree(isDigit: Digits, v: Value, minimum: nat, allowZero: bool)
    ensures ByCharacters(isDigit, v, minimum) == ByPattern(v, minimum)
    ensures Reference(isDigit, v, allowZero) == ByPattern(v, if allowZero then 0 else 1)
  {
    if v.Text? {
      MatchesIffCanonical(v.text);
      CharactersIffCanonical(isDigit, v.text);
    }
  }

  /**
   A decoder yields a number exactly on that number's decimal text, for every number from the
   minimum to 2^64 - 1, so printing what was decoded gives the text back.
   */
  lemma DecodesExactlyCanonicalText(v: Value, minimum: nat, n: nat)
    ensures ByPattern(v, minimum) == Some(n) <==> v == Text(Print(n)) && minimum <= n <= UINT64_MAX
  {
    if v.Text? {
      MatchesIffCanonical(v.text);
      if CanonicalDigits(v.text) {
        CanonicalIsPrinted(v.text);
      }
    }
    PrintIsCanonical(n);
    if n <= UINT64_MAX {
      TwentyDigits();
      PrintLength(n, 20);
    }
  }
}
