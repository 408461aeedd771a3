/**
 The UTF-8 decoder of `src/utf8.c`, measured against RFC 3629: the syntax of section 4
 and the bit layout of section 3.
*/
module Utf8 {
  import opened Options
  import opened Machine

  datatype Decoded = Decoded(cp: bv32, len: nat)

  // ----- RFC 3629

  /** UTF8-tail. */
  predicate IsTail(b: Byte) {
    0x80 <= b <= 0xBF
  }

  /** The number of bytes of the well-formed sequence `s` starts with by section 4, or 0. */
  function SequenceLength(s: Bytes): nat {
    if |s| >= 1 && s[0] <= 0x7F then 1
    else if |s| >= 2 && 0xC2 <= s[0] <= 0xDF && IsTail(s[1]) then 2
    else if |s| >= 3 && IsTail(s[2]) && IsSecondOfThree(s[0], s[1]) then 3
    else if |s| >= 4 && IsTail(s[2]) && IsTail(s[3]) && IsSecondOfFour(s[0], s[1]) then 4
    else 0
  }

  predicate IsSecondOfThree(lead: Byte, second: Byte) {
    || (lead == 0xE0 && 0xA0 <= second <= 0xBF)
    || (0xE1 <= lead <= 0xEC && IsTail(second))
    || (lead == 0xED && 0x80 <= second <= 0x9F)
    || (0xEE <= lead <= 0xEF && IsTail(second))
  }

  predicate IsSecondOfFour(lead: Byte, second: Byte) {
    || (lead == 0xF0 && 0x90 <= second <= 0xBF)
    || (0xF1 <= lead <= 0xF3 && IsTail(second))
    || (lead == 0xF4 && 0x80 <= second <= 0x8F)
  }

  predicate IsScalar(cp: bv32) {
    cp <= 0x10FFFF && !(0xD800 <= cp <= 0xDFFF)
  }

  /** The octets of a scalar value, by the table of section 3. */
  function Encode(cp: bv32): (s: Bytes)
    requires IsScalar(cp)
    ensures 1 <= |s| <= 4
  {
    if cp <= 0x7F then [cp as Byte]
    else if cp <= 0x7FF then [(0xC0 | (cp >> 6)) as Byte, TailOf(cp)]
    else if cp <= 0xFFFF then [(0xE0 | (cp >> 12)) as Byte, TailOf(cp >> 6), TailOf(cp)]
    else [(0xF0 | (cp >> 18)) as Byte, TailOf(cp >> 12), TailOf(cp >> 6), TailOf(cp)]
  }

  /** A continuation octet carrying the low six bits. */
  function TailOf(x: bv32): Byte {
    (0x80 | (x & 0x3F)) as Byte
  }

  /** The value bits of a lead octet of a sequence of this length. */
  function LeadBits(lead: Byte, len: nat): bv32
    requires 1 <= len <= 4
  {
    if len == 1 then (lead & 0x7F) as bv32
    else if len == 2 then (lead & 0x1F) as bv32
    else if len == 3 then (lead & 0x0F) as bv32
    else (lead & 0x07) as bv32
  }

  function AddTail(cp: bv32, tail: Byte): bv32 {
    (cp << 6) | ((tail & 0x3F) as bv32)
  }

  /** The value bits of the first `i` octets of a sequence of length `len`. */
  function ValueBits(s: Bytes, len: nat, i: nat): bv32
    requires 1 <= i <= len <= 4 && len <= |s|
  {
    if i == 1 then LeadBits(s[0], len) else AddTail(ValueBits(s, len, i - 1), s[i - 1])
  }

  /** What a decoder of RFC 3629 makes of the start of `s`. */
  function Rfc3629(s: Bytes): Option<Decoded> {
    var len := SequenceLength(s);
    if len == 0 then None else Some(Decoded(ValueBits(s, len, len), len))
  }

  lemma ValueBitsSpelt(s: Bytes, len: nat)
    requires 1 <= len <= 4 && len <= |s|
    ensures len == 1 ==> ValueBits(s, len, len) == LeadBits(s[0], 1)
    ensures len == 2 ==> ValueBits(s, len, len) == AddTail(LeadBits(s[0], 2), s[1])
    ensures len == 3 ==> ValueBits(s, len, len) == AddTail(AddTail(LeadBits(s[0], 3), s[1]), s[2])
    ensures len == 4 ==> ValueBits(s, len, len) == AddTail(AddTail(AddTail(LeadBits(s[0], 4), s[1]), s[2]), s[3])
  {
    if len >= 2 { assert ValueBits(s, len, 2) == AddTail(ValueBits(s, len, 1), s[1]); }
    if len >= 3 { assert ValueBits(s, len, 3) == AddTail(ValueBits(s, len, 2), s[2]); }
  }

  // ----- encoding and decoding are inverse

  lemma TwoBits(cp: bv32)
    requires 0x7F < cp <= 0x7FF
    ensures var a, b := (0xC0 | (cp >> 6)) as Byte, TailOf(cp);
            0xC2 <= a <= 0xDF && IsTail(b) && AddTail(LeadBits(a, 2), b) == cp
  {
  }

  lemma ThreeBits(cp: bv32)
    requires 0x7FF < cp <= 0xFFFF && IsScalar(cp)
    ensures var a, b, c := (0xE0 | (cp >> 12)) as Byte, TailOf(cp >> 6), TailOf(cp);
            IsSecondOfThree(a, b) && IsTail(c) && AddTail(AddTail(LeadBits(a, 3), b), c) == cp
  {
  }

  lemma FourBits(cp: bv32)
    requires 0xFFFF < cp <= 0x10FFFF
    ensures var a, b, c, d := (0xF0 | (cp >> 18)) as Byte, TailOf(cp >> 12), TailOf(cp >> 6), TailOf(cp);
            IsSecondOfFour(a, b) && IsTail(c) && IsTail(d)
            && AddTail(AddTail(AddTail(LeadBits(a, 4), b), c), d) == cp
  {
  }

  /** Decoding an encoded scalar value gives it back, whatever follows. */
  lemma DecodeOfEncode(cp: bv32, rest: Bytes)
    requires IsScalar(cp)
    ensures Rfc3629(Encode(cp) + rest) == Some(Decoded(cp, |Encode(cp)|))
  {
    var s := Encode(cp) + rest;
    if 0x7F < cp <= 0x7FF { TwoBits(cp); }
    if 0x7FF < cp <= 0xFFFF { ThreeBits(cp); }
    if 0xFFFF < cp { FourBits(cp); }
    assert SequenceLength(s) == |Encode(cp)|;
    ValueBitsSpelt(s, |Encode(cp)|);
  }

  lemma OneBack(a: Byte)
    requires a <= 0x7F
    ensures var cp := LeadBits(a, 1);
            IsScalar(cp) && Encode(cp) == [a]
  {
  }

  lemma TwoBack(a: Byte, b: Byte)
    requires 0xC2 <= a <= 0xDF && IsTail(b)
    ensures var cp := AddTail(LeadBits(a, 2), b);
            IsScalar(cp) && Encode(cp) == [a, b]
  {
  }

  lemma ThreeBack(a: Byte, b: Byte, c: Byte)
    requires IsSecondOfThree(a, b) && IsTail(c)
    ensures var cp := AddTail(AddTail(LeadBits(a, 3), b), c);
            IsScalar(cp) && Encode(cp) == [a, b, c]
  {
  }

  lemma FourBack(a: Byte, b: Byte, c: Byte, d: Byte)
    requires IsSecondOfFour(a, b) && IsTail(c) && IsTail(d)
    ensures var cp := AddTail(AddTail(AddTail(LeadBits(a, 4), b), c), d);
            IsScalar(cp) && Encode(cp) == [a, b, c, d]
  {
  }

  /** What decodes is a scalar value, and the octets are its encoding. */
  lemma EncodeOfDecode(s: Bytes)
    requires Rfc3629(s).Some?
    ensures var d := Rfc3629(s).value;
            IsScalar(d.cp) && d.len <= |s| && Encode(d.cp) == s[..d.len]
  {
    hide AddTail, LeadBits, ValueBits, Encode, IsScalar;
    var d := Rfc3629(s).value;
    ValueBitsSpelt(s, d.len);
    if d.len == 1 {
      OneBack(s[0]);
      assert s[..1] == [s[0]];
    } else if d.len == 2 {
      TwoBack(s[0], s[1]);
      assert s[..2] == [s[0], s[1]];
    } else if d.len == 3 {
      ThreeBack(s[0], s[1], s[2]);
      assert s[..3] == [s[0], s[1], s[2]];
    } else {
      FourBack(s[0], s[1], s[2], s[3]);
      assert s[..4] == [s[0], s[1], s[2], s[3]];
    }
  }

  function EncodeAll(cps: seq<bv32>): Bytes
    requires forall cp <- cps :: IsScalar(cp)
  {
    if cps == [] then [] else Encode(cps[0]) + EncodeAll(cps[1..])
  }

  /** Decodes one sequence after the other; absent as soon as one is ill-formed. */
  function DecodeAll(s: Bytes): Option<seq<bv32>> {
    if s == [] then Some([])
    else
      var d := Rfc3629(s);
      if d.None? then None
      else
        var rest := DecodeAll(s[d.value.len..]);
        if rest.None? then None else Some([d.value.cp] + rest.value)
  }

  /** Whole texts of scalar values survive encoding and decoding. */
  lemma {:induction false} DecodeAllOfEncodeAll(cps: seq<bv32>)
    requires forall cp <- cps :: IsScalar(cp)
    ensures DecodeAll(EncodeAll(cps)) == Some(cps)
  {
    hide Rfc3629, Encode, IsScalar;
    if cps != [] {
      var rest := EncodeAll(cps[1..]);
      assert cps == [cps[0]] + cps[1..];
      DecodeOfEncode(cps[0], rest);
      assert (Encode(cps[0]) + rest)[|Encode(cps[0])|..] == rest;
      DecodeAllOfEncodeAll(cps[1..]);
    }
  }

  /** And no two octet strings decode to the same text. */
  lemma {:induction false} EncodeAllOfDecodeAll(s: Bytes)
    requires DecodeAll(s).Some?
    ensures (forall cp <- DecodeAll(s).value :: IsScalar(cp)) && EncodeAll(DecodeAll(s).value) == s
    decreases |s|
  {
    hide Rfc3629, Encode, IsScalar;
    if s != [] {
      var d := Rfc3629(s).value;
      EncodeOfDecode(s);
      EncodeAllOfDecodeAll(s[d.len..]);
      var cps := DecodeAll(s).value;
      assert cps[1..] == DecodeAll(s[d.len..]).value;
      assert s == s[..d.len] + s[d.len..];
    }
  }

  // ----- the decoder

  /** `utf8_lead_len`. */
  function LeadLength(lead: Byte): (len: nat)
    ensures len <= 4
  {
    if lead < 0x80 then 1
    else if 0xC2 <= lead <= 0xDF then 2
    else if 0xE0 <= lead <= 0xEF then 3
    else if 0xF0 <= lead <= 0xF4 then 4
    else 0
  }

  predicate IsContinuation(b: Byte) {
    b & 0xC0 == 0x80
  }

  function MinimumFor(len: nat): bv32 {
    if len == 2 then 0x80 else if len == 3 then 0x800 else if len == 4 then 0x10000 else 0
  }

  /** The range checks after the loop accept exactly what the second octet ranges of the RFC accept. */
  lemma ChecksMatch(s: Bytes, len: nat)
    requires |s| > 0 && len == LeadLength(s[0]) && 1 <= len <= |s|
    requires forall i :: 1 <= i < len ==> IsContinuation(s[i])
    ensures SequenceLength(s) == len <==>
              var cp := ValueBits(s, len, len);
              cp >= MinimumFor(len) && IsScalar(cp)
    ensures SequenceLength(s) == len || SequenceLength(s) == 0
  {
    ValueBitsSpelt(s, len);
  }

  /** An octet sequence the lead octet does not fit, or with an octet that is no continuation, is ill-formed. */
  lemma IllFormed(s: Bytes, i: nat)
    requires |s| > 0
    requires LeadLength(s[0]) == 0 || LeadLength(s[0]) > |s|
             || (1 <= i < LeadLength(s[0]) <= |s| && !IsContinuation(s[i]))
    ensures SequenceLength(s) == 0
  {
  }

  /** `kavak_utf8_decode` on the bytes from the cursor to the end; a length of 0 means nothing decodes there. */
  method Decode(s: Bytes) returns (len: nat, cp: bv32)
    ensures if Rfc3629(s).Some? then Decoded(cp, len) == Rfc3629(s).value else len == 0
  {
    if |s| == 0 { return 0, 0; }
    len := LeadLength(s[0]);
    if len == 0 || |s| < len {
      IllFormed(s, 0);
      return 0, 0;
    }
    cp := LeadBits(s[0], len);
    for i := 1 to len
      invariant cp == ValueBits(s, len, i)
      invariant forall j :: 1 <= j < i ==> IsContinuation(s[j])
    {
      if !IsContinuation(s[i]) {
        IllFormed(s, i);
        return 0, 0;
      }
      cp := AddTail(cp, s[i]);
    }
    ChecksMatch(s, len);
    if cp < MinimumFor(len) { return 0, 0; }
    if cp > 0x10FFFF { return 0, 0; }
    if 0xD800 <= cp <= 0xDFFF { return 0, 0; }
  }
}
