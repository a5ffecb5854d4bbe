/** UTF-8 decoding as the regular-expression engine does it (`decode_utf8` in `src/core/regex.cpp`). */
module Utf8 {

  const REPLACEMENT: nat := 0xFFFD

  type Byte = x: nat | x < 256

  predicate IsScalar(c: nat) { c <= 0x10FFFF && !(0xD800 <= c <= 0xDFFF) }

  predicate IsContinuation(b: Byte) { 0x80 <= b < 0xC0 }

  /** The number of bytes a lead byte announces; 0 when it is none. */
  function Length(lead: Byte): nat
  {
    if 0xC0 <= lead < 0xE0 then 2
    else if 0xE0 <= lead < 0xF0 then 3
    else if 0xF0 <= lead < 0xF8 then 4
    else 0
  }

  /** The smallest value each length may carry. */
  function Minimum(length: nat): nat
  {
    if length == 2 then 0x80 else if length == 3 then 0x800 else 0x10000
  }

  /** The bits of the lead byte below its length marker. */
  function LeadBits(lead: Byte): nat
    requires Length(lead) != 0
  {
    lead - (if lead < 0xE0 then 0xC0 else if lead < 0xF0 then 0xE0 else 0xF0)
  }

  /** Every continuation byte adds its six low bits. */
  function Payload(value: nat, rest: seq<Byte>): nat
    requires forall i | 0 <= i < |rest| :: IsContinuation(rest[i])
    decreases |rest|
  {
    if rest == [] then value
    else
      assert IsContinuation(rest[0]);
      Payload(value * 64 + (rest[0] - 0x80), rest[1..])
  }

  /** The code point at `pos` and the position behind it. */
  function Decode(text: seq<Byte>, pos: nat): (r: (nat, nat))
    requires pos < |text|
    ensures pos < r.1 <= |text|
  {
    var lead := text[pos];
    var length := Length(lead);
    if lead < 0x80 then (lead, pos + 1)
    else if length == 0 || pos + length > |text| then (REPLACEMENT, pos + 1)
    else if exists i :: pos < i < pos + length && !IsContinuation(text[i]) then (REPLACEMENT, pos + 1)
    else
      var c := Payload(LeadBits(lead), text[pos + 1..pos + length]);
      if c < Minimum(length) || !IsScalar(c) then (REPLACEMENT, pos + 1) else (c, pos + length)
  }

  function DecodeAll(text: seq<Byte>, pos: nat): seq<nat>
    requires pos <= |text|
    decreases |text| - pos
  {
    if pos == |text| then [] else [Decode(text, pos).0] + DecodeAll(text, Decode(text, pos).1)
  }

  /** The shortest encoding, section 3 of RFC 3629. */
  function Encode(c: nat): seq<Byte>
    requires IsScalar(c)
  {
    if c < 0x80 then [c]
    else if c < 0x800 then [0xC0 + c / 64, 0x80 + c % 64]
    else if c < 0x10000 then [0xE0 + c / 64 / 64, 0x80 + c / 64 % 64, 0x80 + c % 64]
    else [0xF0 + c / 64 / 64 / 64, 0x80 + c / 64 / 64 % 64, 0x80 + c / 64 % 64, 0x80 + c % 64]
  }

  function EncodeAll(cs: seq<nat>): seq<Byte>
    requires forall i | 0 <= i < |cs| :: IsScalar(cs[i])
  {
    if cs == [] then [] else Encode(cs[0]) + EncodeAll(cs[1..])
  }

  lemma {:induction false} Last(value: nat, rest: seq<Byte>)
    requires rest != [] && forall i | 0 <= i < |rest| :: IsContinuation(rest[i])
    ensures Payload(value, rest) == Payload(value, rest[..|rest| - 1]) * 64 + (rest[|rest| - 1] - 0x80)
    decreases |rest|
  {
    if |rest| > 1 {
      var tail := rest[1..];
      Last(value * 64 + (rest[0] - 0x80), tail);
      assert tail[..|tail| - 1] == rest[..|rest| - 1][1..];
      assert rest[..|rest| - 1][0] == rest[0] && tail[|tail| - 1] == rest[|rest| - 1];
    }
  }

  /** Reading the last continuation byte undoes one division by 64. */
  lemma Digit(high: nat, low: Byte)
    requires IsContinuation(low)
    ensures var c := high * 64 + (low - 0x80); c / 64 == high && 0x80 + c % 64 == low
  {}

  /** The lead byte and the value together give the bytes: `Payload` is injective. */
  lemma {:induction false} PayloadDigits(value: nat, rest: seq<Byte>)
    requires 0 < |rest| <= 3 && forall i | 0 <= i < |rest| :: IsContinuation(rest[i])
    ensures var c := Payload(value, rest);
            && rest[|rest| - 1] == 0x80 + c % 64
            && (|rest| == 1 ==> value == c / 64)
            && (|rest| >= 2 ==> rest[|rest| - 2] == 0x80 + c / 64 % 64)
            && (|rest| == 2 ==> value == c / 64 / 64)
            && (|rest| == 3 ==> rest[0] == 0x80 + c / 64 / 64 % 64 && value == c / 64 / 64 / 64)
    decreases |rest|
  {
    var front, low := rest[..|rest| - 1], rest[|rest| - 1];
    Last(value, rest);
    Digit(Payload(value, front), low);
    if |rest| > 1 { PayloadDigits(value, front); }
  }

  lemma Bits(c: nat)
    ensures c == c / 64 * 64 + c % 64
  {}

  /** The bytes `Encode` writes carry the code point. */
  lemma EncodedPayload(c: nat)
    requires IsScalar(c) && c >= 0x80
    ensures var code := Encode(c);
            && Length(code[0]) == |code| && Minimum(|code|) <= c
            && (forall i | 1 <= i < |code| :: IsContinuation(code[i]))
            && Payload(LeadBits(code[0]), code[1..]) == c
  {
    var code := Encode(c);
    Bits(c);
    Bits(c / 64);
    Bits(c / 64 / 64);
    forall i | 1 <= i < |code| ensures IsContinuation(code[i]) {}
    Last(LeadBits(code[0]), code[1..]);
    if |code| == 2 {
      assert code[1..][..0] == [];
    } else if |code| == 3 {
      assert code[1..][..1] == [code[1]];
      Last(LeadBits(code[0]), [code[1]]);
      assert [code[1]][..0] == [];
    } else {
      assert code[1..][..2] == [code[1], code[2]];
      Last(LeadBits(code[0]), [code[1], code[2]]);
      assert [code[1], code[2]][..1] == [code[1]];
      Last(LeadBits(code[0]), [code[1]]);
      assert [code[1]][..0] == [];
    }
  }

  /** A code point is read back from its encoding, wherever that stands. */
  lemma DecodeEncoded(text: seq<Byte>, pos: nat, c: nat)
    requires IsScalar(c) && pos + |Encode(c)| <= |text| && text[pos..pos + |Encode(c)|] == Encode(c)
    ensures Decode(text, pos) == (c, pos + |Encode(c)|)
  {
    var code := Encode(c);
    assert text[pos] == text[pos..pos + |code|][0];
    if c >= 0x80 {
      EncodedPayload(c);
      assert text[pos + 1..pos + |code|] == code[1..];
      forall i | pos < i < pos + |code| ensures IsContinuation(text[i]) { assert text[i] == text[pos..pos + |code|][i - pos]; }
    }
  }

  /** Conversely, what is read is the replacement character for one byte, or an encoding. */
  lemma DecodedIsEncoding(text: seq<Byte>, pos: nat)
    requires pos < |text|
    ensures var (c, next) := Decode(text, pos);
            || (c == REPLACEMENT && next == pos + 1)
            || (IsScalar(c) && text[pos..next] == Encode(c))
  {
    var (c, next) := Decode(text, pos);
    var lead, length := text[pos], Length(text[pos]);
    if lead >= 0x80 && !(c == REPLACEMENT && next == pos + 1) {
      var rest := text[pos + 1..pos + length];
      forall i | 0 <= i < |rest| ensures IsContinuation(rest[i]) { assert rest[i] == text[pos + 1 + i]; }
      PayloadDigits(LeadBits(lead), rest);
      assert text[pos..next] == [lead] + rest;
      ShortestBytes(lead, rest, c);
    } else if lead < 0x80 {
      assert text[pos..next] == [lead];
    }
  }

  /** With the value in the range of its length, the bytes are the ones `Encode` writes. */
  lemma ShortestBytes(lead: Byte, rest: seq<Byte>, c: nat)
    requires Length(lead) == |rest| + 1 && forall i | 0 <= i < |rest| :: IsContinuation(rest[i])
    requires c == Payload(LeadBits(lead), rest) && Minimum(|rest| + 1) <= c && IsScalar(c)
    ensures [lead] + rest == Encode(c)
  {
    PayloadDigits(LeadBits(lead), rest);
    if |rest| == 1 {
      assert rest == [rest[0]];
    } else if |rest| == 2 {
      assert rest == [rest[0], rest[1]];
    } else {
      assert rest == [rest[0], rest[1], rest[2]];
    }
  }

  /** Valid UTF-8 decodes to the code points it encodes. */
  lemma {:induction false} DecodeAllEncoded(before: seq<Byte>, cs: seq<nat>)
    requires forall i | 0 <= i < |cs| :: IsScalar(cs[i])
    ensures DecodeAll(before + EncodeAll(cs), |before|) == cs
    decreases |cs|
  {
    hide Decode, Encode;
    if cs != [] {
      var text, code := before + EncodeAll(cs), Encode(cs[0]);
      assert text == before + code + EncodeAll(cs[1..]);
      assert text[|before|..|before| + |code|] == code;
      DecodeEncoded(text, |before|, cs[0]);
      DecodeAllEncoded(before + code, cs[1..]);
    }
  }
}
