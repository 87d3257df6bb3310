/** UTF-8, UTF-16 and UTF-32: the bit patterns the converters read and write, and
    which sequences are well formed (Unicode Standard, section 3.9, Tables 3-5 to 3-7). */
module Utf {
  type UTF8 = bv8
  type UTF16 = bv16
  /** An unsigned long; 64 bits where the program runs. */
  type UTF32 = bv64

  const REPLACEMENT_CHAR: UTF32 := 0xFFFD
  const MAX_BMP: UTF32 := 0xFFFF
  const MAX_LEGAL: UTF32 := 0x10FFFF
  const HALF_BASE: UTF32 := 0x10000

  predicate IsHigh(u: UTF16) {
    0xD800 <= u <= 0xDBFF
  }

  predicate IsLow(u: UTF16) {
    0xDC00 <= u <= 0xDFFF
  }

  predicate IsSurrogate(ch: UTF32) {
    0xD800 <= ch <= 0xDFFF
  }

  /** A Unicode scalar value. */
  predicate IsScalar(ch: UTF32) {
    ch <= MAX_LEGAL && !IsSurrogate(ch)
  }

  // ----------------------------------------------------------------- UTF-16

  function Combine(high: UTF16, low: UTF16): UTF32 {
    ((high as UTF32 - 0xD800) << 10) + (low as UTF32 - 0xDC00) + HALF_BASE
  }

  function HighHalf(ch: UTF32): UTF16 {
    ((((ch - HALF_BASE) >> 10) + 0xD800) & 0xFFFF) as UTF16
  }

  function LowHalf(ch: UTF32): UTF16 {
    ((((ch - HALF_BASE) & 0x3FF) + 0xDC00) & 0xFFFF) as UTF16
  }

  function Units16(ch: UTF32): (r: seq<UTF16>)
    ensures 1 <= |r| <= 2
  {
    if ch <= MAX_BMP then [(ch & 0xFFFF) as UTF16] else [HighHalf(ch), LowHalf(ch)]
  }

  lemma HalvesAreSurrogates(ch: UTF32)
    requires MAX_BMP < ch <= MAX_LEGAL
    ensures IsHigh(HighHalf(ch)) && IsLow(LowHalf(ch))
  {
  }

  lemma HalvesCombine(ch: UTF32)
    requires MAX_BMP < ch <= MAX_LEGAL
    ensures Combine(HighHalf(ch), LowHalf(ch)) == ch
  {
  }

  lemma CombineSplits(high: UTF16, low: UTF16)
    requires IsHigh(high) && IsLow(low)
    ensures MAX_BMP < Combine(high, low) <= MAX_LEGAL
    ensures Units16(Combine(high, low)) == [high, low]
  {
    CombineInRange(high, low);
    CombineHigh(high, low);
    CombineLow(high, low);
  }

  lemma CombineInRange(high: UTF16, low: UTF16)
    requires IsHigh(high) && IsLow(low)
    ensures MAX_BMP < Combine(high, low) <= MAX_LEGAL
  {
  }

  lemma CombineHigh(high: UTF16, low: UTF16)
    requires IsHigh(high) && IsLow(low)
    ensures HighHalf(Combine(high, low)) == high
  {
  }

  lemma CombineLow(high: UTF16, low: UTF16)
    requires IsHigh(high) && IsLow(low)
    ensures LowHalf(Combine(high, low)) == low
  {
  }

  // ------------------------------------------------------------------ UTF-8

  /** How many bytes follow a first byte (the table trailingBytesForUTF8). */
  function Trailing(first: UTF8): nat {
    if first < 0xC0 then 0
    else if first < 0xE0 then 1
    else if first < 0xF0 then 2
    else if first < 0xF8 then 3
    else if first < 0xFC then 4
    else 5
  }

  /** The table offsetsFromUTF8. */
  function Offset(trailing: nat): UTF32 {
    if trailing == 0 then 0
    else if trailing == 1 then 0x3080
    else if trailing == 2 then 0xE2080
    else if trailing == 3 then 0x3C82080
    else if trailing == 4 then 0xFA082080
    else 0x82082080
  }

  /** The table firstByteMark. */
  function Mark(length: nat): UTF32 {
    if length <= 1 then 0 else if length == 2 then 0xC0 else if length == 3 then 0xE0 else 0xF0
  }

  function Length8(ch: UTF32): (n: nat)
    ensures 1 <= n <= 4
  {
    if ch < 0x80 then 1 else if ch < 0x800 then 2 else if ch < 0x10000 then 3 else 4
  }

  function TailByte(ch: UTF32): UTF8 {
    (((ch | 0x80) & 0xBF) & 0xFF) as UTF8
  }

  function HeadByte(ch: UTF32, length: nat): UTF8 {
    ((ch | Mark(length)) & 0xFF) as UTF8
  }

  /** The bytes written for a value, in `n` bytes. */
  function Bytes8(ch: UTF32, n: nat): (r: seq<UTF8>)
    requires 1 <= n <= 4
    ensures |r| == n
  {
    if n == 1 then [HeadByte(ch, 1)]
    else if n == 2 then [HeadByte(ch >> 6, 2), TailByte(ch)]
    else if n == 3 then [HeadByte((ch >> 6) >> 6, 3), TailByte(ch >> 6), TailByte(ch)]
    else [HeadByte(((ch >> 6) >> 6) >> 6, 4), TailByte((ch >> 6) >> 6), TailByte(ch >> 6), TailByte(ch)]
  }

  function Units8(ch: UTF32): (r: seq<UTF8>)
    ensures 1 <= |r| <= 4
  {
    Bytes8(ch, Length8(ch))
  }

  /** The bytes of one character shifted together, as the readers do, less the
      constants that the length and tail markers amount to. */
  function Value2(b0: UTF8, b1: UTF8): UTF32 {
    (b0 as UTF32 << 6) + b1 as UTF32 - Offset(1)
  }

  function Value3(b0: UTF8, b1: UTF8, b2: UTF8): UTF32 {
    (((b0 as UTF32 << 6) + b1 as UTF32) << 6) + b2 as UTF32 - Offset(2)
  }

  function Value4(b0: UTF8, b1: UTF8, b2: UTF8, b3: UTF8): UTF32 {
    (((((b0 as UTF32 << 6) + b1 as UTF32) << 6) + b2 as UTF32) << 6) + b3 as UTF32 - Offset(3)
  }

  function Decode8(s: seq<UTF8>): UTF32
    requires 1 <= |s| <= 4
  {
    if |s| == 1 then s[0] as UTF32
    else if |s| == 2 then Value2(s[0], s[1])
    else if |s| == 3 then Value3(s[0], s[1], s[2])
    else Value4(s[0], s[1], s[2], s[3])
  }

  predicate Tail(b: UTF8) {
    0x80 <= b <= 0xBF
  }

  /** One character's bytes are in Table 3-7. */
  predicate InTable37(s: seq<UTF8>) {
    || (|s| == 1 && s[0] <= 0x7F)
    || (|s| == 2 && 0xC2 <= s[0] <= 0xDF && Tail(s[1]))
    || (|s| == 3 && s[0] == 0xE0 && 0xA0 <= s[1] <= 0xBF && Tail(s[2]))
    || (|s| == 3 && (0xE1 <= s[0] <= 0xEC || 0xEE <= s[0] <= 0xEF) && Tail(s[1]) && Tail(s[2]))
    || (|s| == 3 && s[0] == 0xED && 0x80 <= s[1] <= 0x9F && Tail(s[2]))
    || (|s| == 4 && s[0] == 0xF0 && 0x90 <= s[1] <= 0xBF && Tail(s[2]) && Tail(s[3]))
    || (|s| == 4 && 0xF1 <= s[0] <= 0xF3 && Tail(s[1]) && Tail(s[2]) && Tail(s[3]))
    || (|s| == 4 && s[0] == 0xF4 && 0x80 <= s[1] <= 0x8F && Tail(s[2]) && Tail(s[3]))
  }

  /** What the legality test accepts beyond Table 3-7: after ED and F4 the second
      byte has an upper bound but no lower one. */
  predicate Overlooked(s: seq<UTF8>) {
    || (|s| == 3 && s[0] == 0xED && s[1] < 0x80 && Tail(s[2]))
    || (|s| == 4 && s[0] == 0xF4 && s[1] < 0x80 && Tail(s[2]) && Tail(s[3]))
  }

  predicate Legal8(s: seq<UTF8>) {
    InTable37(s) || Overlooked(s)
  }

  /** The legality test, stepping back from the last byte to the first. */
  method IsLegalUTF8(source: seq<UTF8>, length: nat) returns (legal: bool)
    requires source != [] && length == Trailing(source[0]) + 1 <= |source|
    ensures legal <==> Legal8(source[..length])
  {
    var p := length;
    var a: UTF8;
    if length > 4 {
      return false;
    }
    if length == 4 {
      p := p - 1;
      a := source[p];
      if a < 0x80 || a > 0xBF {
        return false;
      }
    }
    if length >= 3 {
      p := p - 1;
      a := source[p];
      if a < 0x80 || a > 0xBF {
        return false;
      }
    }
    if length >= 2 {
      p := p - 1;
      a := source[p];
      if a > 0xBF {
        return false;
      }
      if source[0] == 0xE0 {
        if a < 0xA0 { return false; }
      } else if source[0] == 0xED {
        if a > 0x9F { return false; }
      } else if source[0] == 0xF0 {
        if a < 0x90 { return false; }
      } else if source[0] == 0xF4 {
        if a > 0x8F { return false; }
      } else {
        if a < 0x80 { return false; }
      }
    }
    if source[0] >= 0x80 && source[0] < 0xC2 {
      return false;
    }
    if source[0] > 0xF4 {
      return false;
    }
    return true;
  }

  /** The second byte after ED and F4 has no lower bound in the test. */
  lemma LegalAfterEDAndF4(b1: UTF8, b2: UTF8, b3: UTF8)
    ensures Legal8([0xED, b1, b2]) <==> b1 <= 0x9F && 0x80 <= b2 <= 0xBF
    ensures Legal8([0xF4, b1, b2, b3]) <==> b1 <= 0x8F && 0x80 <= b2 <= 0xBF && 0x80 <= b3 <= 0xBF
    ensures Legal8([0xE0, b1, b2]) <==> 0xA0 <= b1 <= 0xBF && 0x80 <= b2 <= 0xBF
    ensures Legal8([0xF0, b1, b2, b3]) <==> 0x90 <= b1 <= 0xBF && 0x80 <= b2 <= 0xBF && 0x80 <= b3 <= 0xBF
  {
  }

  /** A sequence the test accepts although it is not well formed: ED 20 80. */
  lemma LegalNotInTable()
    ensures Legal8([0xED, 0x20, 0x80]) && !InTable37([0xED, 0x20, 0x80])
    ensures Decode8([0xED, 0x20, 0x80]) == 0xB800 && Units8(0xB800) == [0xEB, 0xA0, 0x80]
  {
  }

  // Each direction, by length, on the bits.

  lemma Encode2(ch: UTF32)
    requires 0x80 <= ch < 0x800
    ensures var b0, b1 := HeadByte(ch >> 6, 2), TailByte(ch);
            && 0xC2 <= b0 <= 0xDF && Tail(b1)
            && Value2(b0, b1) == ch
  {
  }

  lemma Encode3(ch: UTF32)
    requires 0x800 <= ch < 0x10000
    ensures var b0, b1, b2 := HeadByte((ch >> 6) >> 6, 3), TailByte(ch >> 6), TailByte(ch);
            && 0xE0 <= b0 <= 0xEF && Tail(b1) && Tail(b2) && (b0 == 0xE0 ==> 0xA0 <= b1)
            && Value3(b0, b1, b2) == ch
  {
  }

  lemma Encode3NotSurrogate(ch: UTF32)
    requires 0x800 <= ch < 0x10000 && !IsSurrogate(ch)
    ensures HeadByte((ch >> 6) >> 6, 3) == 0xED ==> TailByte(ch >> 6) <= 0x9F
  {
  }

  lemma Encode4Range(ch: UTF32)
    requires 0x10000 <= ch <= MAX_LEGAL
    ensures var b0, b1 := HeadByte(((ch >> 6) >> 6) >> 6, 4), TailByte((ch >> 6) >> 6);
            var b2, b3 := TailByte(ch >> 6), TailByte(ch);
            && 0xF0 <= b0 <= 0xF4 && Tail(b1) && Tail(b2) && Tail(b3)
            && (b0 == 0xF0 ==> 0x90 <= b1) && (b0 == 0xF4 ==> b1 <= 0x8F)
  {
  }

  lemma Encode4Value(ch: UTF32)
    requires 0x10000 <= ch <= MAX_LEGAL
    ensures var b0, b1 := HeadByte(((ch >> 6) >> 6) >> 6, 4), TailByte((ch >> 6) >> 6);
            var b2, b3 := TailByte(ch >> 6), TailByte(ch);
            Value4(b0, b1, b2, b3) == ch
  {
  }

  /** A value's bytes are in Table 3-7, name their own length, and decode to it. */
  predicate Decodable(ch: UTF32, s: seq<UTF8>) {
    InTable37(s) && |s| == Trailing(s[0]) + 1 && Decode8(s) == ch
  }

  lemma Decodes1(ch: UTF32)
    requires ch < 0x80
    ensures Decodable(ch, Bytes8(ch, 1))
  {
    Encode1(ch);
  }

  lemma Encode1(ch: UTF32)
    requires ch < 0x80
    ensures HeadByte(ch, 1) <= 0x7F && HeadByte(ch, 1) as UTF32 == ch
  {
  }

  lemma Decodes2(ch: UTF32)
    requires 0x80 <= ch < 0x800
    ensures Decodable(ch, Bytes8(ch, 2))
  {
    Encode2(ch);
  }

  lemma Decodable3(b0: UTF8, b1: UTF8, b2: UTF8, ch: UTF32)
    requires InTable37([b0, b1, b2]) && Value3(b0, b1, b2) == ch
    ensures Decodable(ch, [b0, b1, b2])
  {
  }

  lemma Decodable4(b0: UTF8, b1: UTF8, b2: UTF8, b3: UTF8, ch: UTF32)
    requires InTable37([b0, b1, b2, b3])
    requires Value4(b0, b1, b2, b3) == ch
    ensures Decodable(ch, [b0, b1, b2, b3])
  {
  }

  lemma Decodes3(ch: UTF32)
    requires 0x800 <= ch < 0x10000 && !IsSurrogate(ch)
    ensures Decodable(ch, Bytes8(ch, 3))
  {
    Encode3(ch);
    Encode3NotSurrogate(ch);
    Decodable3(HeadByte((ch >> 6) >> 6, 3), TailByte(ch >> 6), TailByte(ch), ch);
  }

  lemma Decodes4(ch: UTF32)
    requires 0x10000 <= ch <= MAX_LEGAL
    ensures Decodable(ch, Bytes8(ch, 4))
  {
    Encode4Range(ch);
    Encode4Value(ch);
    Decodable4(HeadByte(((ch >> 6) >> 6) >> 6, 4), TailByte((ch >> 6) >> 6), TailByte(ch >> 6), TailByte(ch), ch);
  }

  lemma EncodeDecodes(ch: UTF32)
    requires IsScalar(ch)
    ensures Decodable(ch, Units8(ch))
  {
    if ch < 0x80 {
      Decodes1(ch);
    } else if ch < 0x800 {
      Decodes2(ch);
    } else if ch < 0x10000 {
      Decodes3(ch);
    } else {
      Decodes4(ch);
    }
  }

  lemma Decode2(b0: UTF8, b1: UTF8)
    requires 0xC2 <= b0 <= 0xDF && Tail(b1)
    ensures var ch := Value2(b0, b1);
            0x80 <= ch < 0x800 && HeadByte(ch >> 6, 2) == b0 && TailByte(ch) == b1
  {
  }

  /** Three bytes that pass the test, whether or not Table 3-7 has them. */
  lemma Decode3Range(b0: UTF8, b1: UTF8, b2: UTF8)
    requires 0xE0 <= b0 <= 0xEF && b1 <= 0xBF && Tail(b2)
    requires (b0 == 0xE0 ==> 0xA0 <= b1) && (b0 == 0xED ==> b1 <= 0x9F) && (b0 != 0xED ==> 0x80 <= b1)
    ensures var ch := Value3(b0, b1, b2);
            0x800 <= ch < 0x10000 && !IsSurrogate(ch)
  {
  }

  lemma Decode3Bytes(b0: UTF8, b1: UTF8, b2: UTF8)
    requires 0xE0 <= b0 <= 0xEF && Tail(b1) && Tail(b2) && (b0 == 0xE0 ==> 0xA0 <= b1)
    ensures var ch := Value3(b0, b1, b2);
            HeadByte((ch >> 6) >> 6, 3) == b0 && TailByte(ch >> 6) == b1 && TailByte(ch) == b2
  {
  }

  lemma Decode4Range(b0: UTF8, b1: UTF8, b2: UTF8, b3: UTF8)
    requires 0xF0 <= b0 <= 0xF4 && b1 <= 0xBF && Tail(b2) && Tail(b3)
    requires (b0 == 0xF0 ==> 0x90 <= b1) && (b0 == 0xF4 ==> b1 <= 0x8F) && (b0 != 0xF4 ==> 0x80 <= b1)
    ensures var ch := Value4(b0, b1, b2, b3);
            0x10000 <= ch <= MAX_LEGAL
  {
  }

  lemma Decode4Bytes(b0: UTF8, b1: UTF8, b2: UTF8, b3: UTF8)
    requires 0xF0 <= b0 <= 0xF4 && Tail(b1) && Tail(b2) && Tail(b3)
    requires (b0 == 0xF0 ==> 0x90 <= b1) && (b0 == 0xF4 ==> b1 <= 0x8F)
    ensures var ch := Value4(b0, b1, b2, b3);
            && HeadByte(((ch >> 6) >> 6) >> 6, 4) == b0 && TailByte((ch >> 6) >> 6) == b1
            && TailByte(ch >> 6) == b2 && TailByte(ch) == b3
  {
  }

  /** Every sequence the test accepts decodes to a scalar value: never to a
      surrogate, never above 0x10FFFF. */
  lemma LegalDecodes(s: seq<UTF8>)
    requires Legal8(s)
    ensures IsScalar(Decode8(s)) && |s| == Trailing(s[0]) + 1 && Length8(Decode8(s)) == |s|
  {
    if |s| == 2 {
        Decode2(s[0], s[1]);
    } else if |s| == 3 {
        Decode3Range(s[0], s[1], s[2]);
    } else if |s| == 4 {
        Decode4Range(s[0], s[1], s[2], s[3]);
    }
  }

  lemma Encodes1(b0: UTF8)
    requires b0 <= 0x7F
    ensures HeadByte(b0 as UTF32, 1) == b0
  {
  }

  lemma Encodes3(s: seq<UTF8>)
    requires |s| == 3 && InTable37(s)
    ensures Bytes8(Decode8(s), 3) == s
  {
    Decode3Bytes(s[0], s[1], s[2]);
  }

  lemma Encodes4(s: seq<UTF8>)
    requires |s| == 4 && InTable37(s)
    ensures Bytes8(Decode8(s), 4) == s
  {
    Decode4Bytes(s[0], s[1], s[2], s[3]);
    Written4(Value4(s[0], s[1], s[2], s[3]), s);
  }

  lemma Written4(ch: UTF32, s: seq<UTF8>)
    requires |s| == 4
    requires HeadByte(((ch >> 6) >> 6) >> 6, 4) == s[0] && TailByte((ch >> 6) >> 6) == s[1]
    requires TailByte(ch >> 6) == s[2] && TailByte(ch) == s[3]
    ensures Bytes8(ch, 4) == s
  {
  }

  lemma TableEncodes(s: seq<UTF8>)
    requires InTable37(s)
    ensures Units8(Decode8(s)) == s
  {
    LegalDecodes(s);
    if |s| == 1 {
      Encodes1(s[0]);
    } else if |s| == 2 {
        Decode2(s[0], s[1]);
    } else if |s| == 3 {
      Encodes3(s);
    } else {
      Encodes4(s);
    }
  }

  /** Decoding and encoding again gives back the bytes of Table 3-7 and of no other
      accepted sequence. */
  lemma ReencodesIffInTable(s: seq<UTF8>)
    requires Legal8(s)
    ensures Units8(Decode8(s)) == s <==> InTable37(s)
  {
    LegalDecodes(s);
    EncodeDecodes(Decode8(s));
    if InTable37(s) {
      TableEncodes(s);
    }
  }
}
