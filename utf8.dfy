/**
 * UTF-8 as section 3 of RFC 3629 defines it: a Unicode scalar value becomes
 * one to four octets, and only the shortest form of a scalar value is valid.
 * `Append` is the imperative step dmoji.c performs with ICU's `U8_APPEND`.
 */
module Utf8 {
  import opened Optional
  import opened CStrings

  const MAX_SCALAR: int := 0x10FFFF

  predicate IsSurrogate(c: int) { 0xD800 <= c <= 0xDFFF }

  /** The code points UTF-8 can encode: 0..U+10FFFF without the surrogates. */
  predicate IsScalar(c: int) { 0 <= c <= MAX_SCALAR && !IsSurrogate(c) }

  /** An octet of the form 10xxxxxx. */
  predicate IsTail(b: byte) { 0x80 <= b < 0xC0 }

  /** The octets of `c` (the table of RFC 3629, section 3), or None for a non-scalar. */
  function Encode(c: int): (r: Option<seq<byte>>)
    ensures r.Some? <==> IsScalar(c)
    ensures r.Some? ==> 1 <= |r.value| <= 4
  {
    if !IsScalar(c) then None
    else if c < 0x80 then Some([c as byte])
    else if c < 0x800 then
      Some([(0xC0 + c / 0x40) as byte, (0x80 + c % 0x40) as byte])
    else if c < 0x10000 then
      Some([(0xE0 + c / 0x1000) as byte, (0x80 + c / 0x40 % 0x40) as byte, (0x80 + c % 0x40) as byte])
    else
      Some([(0xF0 + c / 0x40000) as byte, (0x80 + c / 0x1000 % 0x40) as byte,
            (0x80 + c / 0x40 % 0x40) as byte, (0x80 + c % 0x40) as byte])
  }

  /** The scalar value `s` encodes when `s` is exactly one well-formed UTF-8 sequence (RFC 3629, section 4 syntax). */
  function Decode(s: seq<byte>): (r: Option<int>)
    ensures r.Some? ==> IsScalar(r.value)
  {
    if |s| == 1 && s[0] < 0x80 then Some(s[0] as int)
    else if |s| == 2 && 0xC2 <= s[0] <= 0xDF && IsTail(s[1]) then
      Some((s[0] as int - 0xC0) * 0x40 + (s[1] as int - 0x80))
    else if |s| == 3 && 0xE0 <= s[0] <= 0xEF && IsTail(s[1]) && IsTail(s[2]) then
      var v := (s[0] as int - 0xE0) * 0x1000 + (s[1] as int - 0x80) * 0x40 + (s[2] as int - 0x80);
      if v < 0x800 || IsSurrogate(v) then None else Some(v)
    else if |s| == 4 && 0xF0 <= s[0] <= 0xF4 && IsTail(s[1]) && IsTail(s[2]) && IsTail(s[3]) then
      var v := (s[0] as int - 0xF0) * 0x40000 + (s[1] as int - 0x80) * 0x1000
             + (s[2] as int - 0x80) * 0x40 + (s[3] as int - 0x80);
      if v < 0x10000 || v > MAX_SCALAR then None else Some(v)
    else None
  }

  lemma DivMod64(q: int, r: int)
    requires 0 <= r < 0x40
    ensures (q * 0x40 + r) / 0x40 == q && (q * 0x40 + r) % 0x40 == r
  {
  }

  /** Splitting `c` into its low six bits and the rest. */
  lemma Split64(c: int)
    requires c >= 0
    ensures c == c / 0x40 * 0x40 + c % 0x40 && c / 0x40 / 0x40 == c / 0x1000 && c / 0x1000 / 0x40 == c / 0x40000
  {
  }

  lemma DecodeEncode3(c: int)
    requires 0x800 <= c < 0x10000 && !IsSurrogate(c)
    ensures Decode(Encode(c).value) == Some(c)
  {
    Split64(c);
    Split64(c / 0x40);
    var s := Encode(c).value;
    assert s[0] as int - 0xE0 == c / 0x1000;
    assert (s[0] as int - 0xE0) * 0x40 + (s[1] as int - 0x80) == c / 0x40;
  }

  lemma DecodeEncode4(c: int)
    requires 0x10000 <= c <= MAX_SCALAR
    ensures Decode(Encode(c).value) == Some(c)
  {
    Split64(c);
    Split64(c / 0x40);
    Split64(c / 0x1000);
    var s := Encode(c).value;
    assert s[0] as int - 0xF0 == c / 0x40000;
    assert (s[0] as int - 0xF0) * 0x40 + (s[1] as int - 0x80) == c / 0x1000;
    assert ((s[0] as int - 0xF0) * 0x40 + (s[1] as int - 0x80)) * 0x40 + (s[2] as int - 0x80) == c / 0x40;
  }

  /** Decoding undoes encoding. */
  lemma DecodeEncode(c: int)
    requires IsScalar(c)
    ensures Decode(Encode(c).value) == Some(c)
  {
    if 0x80 <= c < 0x800 {
      Split64(c);
    } else if 0x800 <= c < 0x10000 {
      DecodeEncode3(c);
    } else if c >= 0x10000 {
      DecodeEncode4(c);
    }
  }

  lemma EncodeDecode2(s: seq<byte>)
    requires |s| == 2 && Decode(s).Some?
    ensures Encode(Decode(s).value) == Some(s)
  {
    var c := Decode(s).value;
    DivMod64(s[0] as int - 0xC0, s[1] as int - 0x80);
    assert c / 0x40 == s[0] as int - 0xC0 && c % 0x40 == s[1] as int - 0x80;
    assert Encode(c).value == s;
  }

  lemma EncodeDecode3(s: seq<byte>)
    requires |s| == 3 && Decode(s).Some?
    ensures Encode(Decode(s).value) == Some(s)
  {
    var c := Decode(s).value;
    var hi := (s[0] as int - 0xE0) * 0x40 + (s[1] as int - 0x80);
    assert c == hi * 0x40 + (s[2] as int - 0x80);
    DivMod64(hi, s[2] as int - 0x80);
    DivMod64(s[0] as int - 0xE0, s[1] as int - 0x80);
    Split64(c);
    assert c / 0x40 == hi && c % 0x40 == s[2] as int - 0x80;
    assert c / 0x1000 == s[0] as int - 0xE0;
    assert c / 0x40 % 0x40 == s[1] as int - 0x80;
    assert Encode(c).value == s;
  }

  lemma EncodeDecode4(s: seq<byte>)
    requires |s| == 4 && Decode(s).Some?
    ensures Encode(Decode(s).value) == Some(s)
  {
    var c := Decode(s).value;
    var top := (s[0] as int - 0xF0) * 0x40 + (s[1] as int - 0x80);
    var hi := top * 0x40 + (s[2] as int - 0x80);
    assert c == hi * 0x40 + (s[3] as int - 0x80);
    DivMod64(hi, s[3] as int - 0x80);
    DivMod64(top, s[2] as int - 0x80);
    DivMod64(s[0] as int - 0xF0, s[1] as int - 0x80);
    Split64(c);
    Split64(c / 0x40);
    assert c / 0x40 == hi && c % 0x40 == s[3] as int - 0x80;
    assert c / 0x1000 == top;
    assert c / 0x40000 == s[0] as int - 0xF0;
    assert c / 0x1000 % 0x40 == s[1] as int - 0x80;
    assert c / 0x40 % 0x40 == s[2] as int - 0x80;
    assert Encode(c).value == s;
  }

  /** Encoding undoes decoding: a well-formed sequence is the one encoding of its value. */
  lemma EncodeDecode(s: seq<byte>)
    requires Decode(s).Some?
    ensures Encode(Decode(s).value) == Some(s)
  {
    if |s| == 2 {
      EncodeDecode2(s);
    } else if |s| == 3 {
      EncodeDecode3(s);
    } else if |s| == 4 {
      EncodeDecode4(s);
    } else {
      assert |s| == 1 && s == [s[0]];
      assert (s[0] as int) as byte == s[0];
    }
  }

  /** Every octet of a multi-octet sequence has its high bit set, so none is ASCII (no space, no NUL, no newline). */
  lemma MultiOctetHigh(c: int)
    requires IsScalar(c) && c >= 0x80
    ensures forall b :: b in Encode(c).value ==> b >= 0x80
  {
  }

  /** Only U+0000 encodes to an octet sequence holding NUL. */
  lemma EncodeNulFree(c: int)
    requires IsScalar(c)
    ensures NUL in Encode(c).value <==> c == 0
  {
  }

  /**
   * `U8_APPEND(buff, i, capacity, c, isError)` with capacity `buff.Length`:
   * writes the encoding of `c` at offset `i` and advances the offset, or sets
   * `isError` and leaves the buffer and offset alone when `c` is not a scalar
   * value or its encoding does not fit. As for the macro, `i < capacity`.
   */
  method Append(buff: array<byte>, i: nat, c: int) returns (j: nat, isError: bool)
    requires i < buff.Length
    modifies buff
    ensures isError <==> Encode(c).None? || i + |Encode(c).value| > buff.Length
    ensures isError ==> j == i && buff[..] == old(buff[..])
    ensures !isError ==> j == i + |Encode(c).value| && buff[..] == old(buff[..i]) + Encode(c).value + old(buff[j..])
  {
    if 0 <= c <= 0x7F {
      buff[i] := c as byte;
      j, isError := i + 1, false;
    } else if 0x80 <= c <= 0x7FF && i + 1 < buff.Length {
      buff[i] := (0xC0 + c / 0x40) as byte;
      buff[i + 1] := (0x80 + c % 0x40) as byte;
      j, isError := i + 2, false;
    } else if 0x800 <= c <= 0xFFFF && !IsSurrogate(c) && i + 2 < buff.Length {
      buff[i] := (0xE0 + c / 0x1000) as byte;
      buff[i + 1] := (0x80 + c / 0x40 % 0x40) as byte;
      buff[i + 2] := (0x80 + c % 0x40) as byte;
      j, isError := i + 3, false;
    } else if 0x10000 <= c <= MAX_SCALAR && i + 3 < buff.Length {
      buff[i] := (0xF0 + c / 0x40000) as byte;
      buff[i + 1] := (0x80 + c / 0x1000 % 0x40) as byte;
      buff[i + 2] := (0x80 + c / 0x40 % 0x40) as byte;
      buff[i + 3] := (0x80 + c % 0x40) as byte;
      j, isError := i + 4, false;
    } else {
      j, isError := i, true;
    }
  }
}
