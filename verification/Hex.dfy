/** Hexadecimal text: the `hex` crate's byte codec (lower case out, either case in). */
module Hex {
  import opened Primitives

  datatype HexError = OddLength | InvalidCharacter

  function Digit(d: nat): char
    requires d < 16
  {
    "0123456789abcdef"[d]
  }

  function DigitValue(c: char): (d: Option<nat>)
    ensures d.Some? ==> d.value < 16
  {
    if '0' <= c <= '9' then Some(c as int - '0' as int)
    else if 'a' <= c <= 'f' then Some(c as int - 'a' as int + 10)
    else if 'A' <= c <= 'F' then Some(c as int - 'A' as int + 10)
    else None
  }

  predicate IsHexDigit(c: char) {
    DigitValue(c).Some?
  }

  predicate IsLowerHexDigit(c: char) {
    '0' <= c <= '9' || 'a' <= c <= 'f'
  }

  predicate LowerHex(s: string) {
    forall i :: 0 <= i < |s| ==> IsLowerHexDigit(s[i])
  }

  function LowerChar(c: char): char {
    if 'A' <= c <= 'Z' then (c as int - 'A' as int + 'a' as int) as char else c
  }

  function Lower(s: string): (l: string)
    ensures |l| == |s|
  {
    seq(|s|, i requires 0 <= i < |s| => LowerChar(s[i]))
  }

  function Encode(bytes: seq<byte>): (s: string)
    ensures |s| == 2 * |bytes|
  {
    if bytes == [] then ""
    else [Digit(bytes[0] / 16), Digit(bytes[0] % 16)] + Encode(bytes[1..])
  }

  function DecodePairs(s: string): Result<seq<byte>, HexError> {
    if s == "" then Ok([])
    else if |s| == 1 then Err(OddLength)
    else
      var hi, lo := DigitValue(s[0]), DigitValue(s[1]);
      if hi.None? || lo.None? then Err(InvalidCharacter)
      else
        match DecodePairs(s[2..])
        case Err(e) => Err(e)
        case Ok(rest) => Ok([Pair(hi.value, lo.value)] + rest)
  }

  function Decode(s: string): Result<seq<byte>, HexError> {
    if |s| % 2 != 0 then Err(OddLength) else DecodePairs(s)
  }

  /** The sixteen digits, in either case. */
  lemma DigitsAreUsual(d: nat, c: char)
    requires d < 16
    ensures Digit(d) == "0123456789abcdef"[d]
    ensures DigitValue(c) == Some(d) <==> c == "0123456789abcdef"[d] || c == "0123456789ABCDEF"[d]
  {
  }

  lemma DigitRoundTrip(d: nat)
    requires d < 16
    ensures DigitValue(Digit(d)) == Some(d)
    ensures IsLowerHexDigit(Digit(d))
  {
  }

  lemma DigitOfValue(c: char)
    requires IsHexDigit(c)
    ensures Digit(DigitValue(c).value) == LowerChar(c)
  {
    var v := DigitValue(c).value;
    if '0' <= c <= '9' {
      assert c as int == '0' as int + v;
      assert Digit(v) == "0123456789abcdef"[v];
    } else {
      assert LowerChar(c) as int == 'a' as int + (v - 10);
    }
  }

  function Pair(hi: nat, lo: nat): (b: byte)
    requires hi < 16 && lo < 16
  {
    16 * hi + lo
  }

  lemma PairParts(b: byte)
    ensures Pair(b / 16, b % 16) == b
  {
  }

  lemma PartsOfPair(hi: nat, lo: nat)
    requires hi < 16 && lo < 16
    ensures Pair(hi, lo) / 16 == hi && Pair(hi, lo) % 16 == lo
  {
  }

  lemma DecodeStep(hi: char, lo: char, rest: string)
    requires IsHexDigit(hi) && IsHexDigit(lo) && DecodePairs(rest).Ok?
    ensures DecodePairs([hi, lo] + rest)
      == Ok([Pair(DigitValue(hi).value, DigitValue(lo).value)] + DecodePairs(rest).value)
  {
    assert ([hi, lo] + rest)[2..] == rest;
  }

  lemma EncodeStep(b: byte, rest: seq<byte>)
    ensures Encode([b] + rest) == [Digit(b / 16), Digit(b % 16)] + Encode(rest)
  {
    assert ([b] + rest)[1..] == rest;
  }

  lemma {:induction false} DecodePairsEncode(bytes: seq<byte>)
    ensures DecodePairs(Encode(bytes)) == Ok(bytes)
  {
    if bytes != [] {
      var b, rest := bytes[0], bytes[1..];
      assert bytes == [b] + rest;
      DecodePairsEncode(rest);
      DigitRoundTrip(b / 16);
      DigitRoundTrip(b % 16);
      DecodeStep(Digit(b / 16), Digit(b % 16), Encode(rest));
      PairParts(b);
      EncodeStep(b, rest);
    }
  }

  /** Decoding undoes encoding, so encoded text determines the bytes. */
  lemma DecodeEncode(bytes: seq<byte>)
    ensures Decode(Encode(bytes)) == Ok(bytes)
  {
    DecodePairsEncode(bytes);
    TwiceIsEven(|bytes|);
  }

  lemma TwiceIsEven(n: nat)
    ensures (2 * n) % 2 == 0
  {
  }

  /** Exactly the even-length strings of hex digits decode, whatever their case. */
  lemma {:induction false} DecodeAccepts(s: string)
    ensures Decode(s).Ok? <==> |s| % 2 == 0 && forall i :: 0 <= i < |s| ==> IsHexDigit(s[i])
    ensures Decode(s).Ok? ==> |Decode(s).value| == |s| / 2
  {
    if |s| % 2 == 0 && s != "" {
      DecodeAccepts(s[2..]);
      assert forall i :: 2 <= i < |s| ==> s[i] == s[2..][i - 2];
    }
  }

  lemma LowerStep(hi: char, lo: char, rest: string)
    ensures Lower([hi, lo] + rest) == [LowerChar(hi), LowerChar(lo)] + Lower(rest)
  {
  }

  /** Re-encoding decoded text gives the same text in lower case. */
  lemma {:induction false} EncodeDecode(s: string)
    requires Decode(s).Ok?
    ensures Encode(Decode(s).value) == Lower(s)
  {
    if s != "" {
      var rest := s[2..];
      assert s == [s[0], s[1]] + rest;
      EncodeDecode(rest);
      DigitOfValue(s[0]);
      DigitOfValue(s[1]);
      var hi, lo := DigitValue(s[0]).value, DigitValue(s[1]).value;
      DecodeStep(s[0], s[1], rest);
      EncodeStep(Pair(hi, lo), DecodePairs(rest).value);
      PartsOfPair(hi, lo);
      LowerStep(s[0], s[1], rest);
    }
  }
}
