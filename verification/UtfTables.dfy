/** Which value a sequence of units stands for: Tables 3-5 and 3-6 of the Unicode Standard, section 3.9, as
    weighted sums, and the answers of the converters in these terms. The sums are in 64 bits and never wrap but
    for the sequences that the legality test overlooks. */
module UtfTables {
  import opened Utf
  import opened ConversionRuns
  import opened ConvertUtf
  import opened UtfRoundTrip

  // ----------------------------------------------------------- UTF-16, Table 3-5

  function PairValue(high: UTF16, low: UTF16): UTF32 {
    0x10000 + (high as UTF32 - 0xD800) * 0x400 + (low as UTF32 - 0xDC00)
  }

  predicate IsPair(high: UTF16, low: UTF16) {
    0xD800 <= high <= 0xDBFF && 0xDC00 <= low <= 0xDFFF
  }

  lemma CombineIsPairValue(high: UTF16, low: UTF16)
    requires IsPair(high, low)
    ensures Combine(high, low) == PairValue(high, low)
  {
  }

  /** A value above 0xFFFF is written as the pair that stands for it. */
  lemma WrittenAsPair(ch: UTF32)
    requires 0xFFFF < ch <= 0x10FFFF
    ensures var u := Units16(ch);
            |u| == 2 && IsPair(u[0], u[1])
            && ch == 0x10000 + (u[0] as UTF32 - 0xD800) * 0x400 + (u[1] as UTF32 - 0xDC00)
  {
    HalvesAreSurrogates(ch);
    HalvesCombine(ch);
    CombineIsPairValue(HighHalf(ch), LowHalf(ch));
  }

  lemma WrittenAsUnit(ch: UTF32)
    requires ch <= 0xFFFF
    ensures |Units16(ch)| == 1 && Units16(ch)[0] as UTF32 == ch
  {
  }

  // ------------------------------------------------------------ UTF-8, Table 3-6

  function Sum2(b0: UTF8, b1: UTF8): UTF32 {
    (b0 as UTF32 - 0xC0) * 0x40 + (b1 as UTF32 - 0x80)
  }

  function Sum3(b0: UTF8, b1: UTF8, b2: UTF8): UTF32 {
    (b0 as UTF32 - 0xE0) * 0x1000 + (b1 as UTF32 - 0x80) * 0x40 + (b2 as UTF32 - 0x80)
  }

  function Sum4(b0: UTF8, b1: UTF8, b2: UTF8, b3: UTF8): UTF32 {
    (b0 as UTF32 - 0xF0) * 0x40000 + (b1 as UTF32 - 0x80) * 0x1000 + (b2 as UTF32 - 0x80) * 0x40 + (b3 as UTF32 - 0x80)
  }

  /** The bytes' weights and digits. */
  function Sum8(s: seq<UTF8>): UTF32
    requires 1 <= |s| <= 4
  {
    if |s| == 1 then s[0] as UTF32
    else if |s| == 2 then Sum2(s[0], s[1])
    else if |s| == 3 then Sum3(s[0], s[1], s[2])
    else Sum4(s[0], s[1], s[2], s[3])
  }

  lemma Value2IsSum(b0: UTF8, b1: UTF8)
    ensures Value2(b0, b1) == Sum2(b0, b1)
  {
  }

  lemma Value3IsSum(b0: UTF8, b1: UTF8, b2: UTF8)
    ensures Value3(b0, b1, b2) == Sum3(b0, b1, b2)
  {
  }

  lemma Value4IsSum(b0: UTF8, b1: UTF8, b2: UTF8, b3: UTF8)
    ensures Value4(b0, b1, b2, b3) == Sum4(b0, b1, b2, b3)
  {
  }

  lemma Decode8IsSum(s: seq<UTF8>)
    requires 1 <= |s| <= 4
    ensures Decode8(s) == Sum8(s)
  {
    if |s| == 2 {
      Value2IsSum(s[0], s[1]);
    } else if |s| == 3 {
      Value3IsSum(s[0], s[1], s[2]);
    } else if |s| == 4 {
      Value4IsSum(s[0], s[1], s[2], s[3]);
    }
  }

  predicate Continues(b: UTF8) {
    0x80 <= b <= 0xBF
  }

  /** A value's bytes: as many as the table has for it, each in its range. */
  predicate Row(ch: UTF32, s: seq<UTF8>) {
    if ch <= 0x7F then |s| == 1 && s[0] <= 0x7F
    else if ch <= 0x7FF then |s| == 2 && 0xC2 <= s[0] <= 0xDF && Continues(s[1])
    else if ch <= 0xFFFF then |s| == 3 && 0xE0 <= s[0] <= 0xEF && Continues(s[1]) && Continues(s[2])
    else |s| == 4 && 0xF0 <= s[0] <= 0xF4 && Continues(s[1]) && Continues(s[2]) && Continues(s[3])
  }

  /** Every value up to 0x10FFFF is written as the row of the table that sums up to it; lone
      surrogates, which lenient converters write, too. */
  lemma WrittenAsRow(ch: UTF32)
    requires ch <= 0x10FFFF
    ensures Row(ch, Units8(ch)) && Sum8(Units8(ch)) == ch
  {
    if ch <= 0x7F {
      Encode1(ch);
    } else if ch <= 0x7FF {
      Encode2(ch);
    } else if ch <= 0xFFFF {
      Encode3(ch);
    } else {
      Encode4Range(ch);
      Encode4Value(ch);
    }
    Decode8IsSum(Units8(ch));
  }

  // ------------------------------------------------------------- whole sources

  /** What lenient UTF-16 stands for from the cursor on: pairs, and any other unit itself. */
  function Values16(src: seq<UTF16>, i: nat): seq<UTF32>
    requires i <= |src|
    decreases |src| - i
  {
    if i == |src| then []
    else if i + 1 < |src| && IsPair(src[i], src[i + 1]) then [PairValue(src[i], src[i + 1])] + Values16(src, i + 2)
    else [src[i] as UTF32] + Values16(src, i + 1)
  }

  function Length37(first: UTF8): nat {
    if first <= 0x7F then 1 else if first <= 0xDF then 2 else if first <= 0xEF then 3 else 4
  }

  /** What accepted UTF-8 stands for from the cursor on. */
  function Values8(src: seq<UTF8>, i: nat): seq<UTF32>
    requires i <= |src|
    decreases |src| - i
  {
    if i == |src| || i + Length37(src[i]) > |src| then []
    else [Sum8(src[i..i + Length37(src[i])])] + Values8(src, i + Length37(src[i]))
  }

  lemma Reads16Next(src: seq<UTF16>, i: nat, n: nat, ch: UTF32)
    requires i < |src| && Advances(Step16to32(LenientConversion))
    requires Next16(LenientConversion, src, i) == Character(ch, n) && i + n <= |src|
    ensures Full(Step16to32(LenientConversion), src, i) ==
            Prefixed([ch], false, Full(Step16to32(LenientConversion), src, i + n))
  {
  }

  lemma NextValue16(src: seq<UTF16>, i: nat)
    requires i < |src| && Next16(LenientConversion, src, i).Character?
    ensures Next16(LenientConversion, src, i) ==
            if i + 1 < |src| && IsPair(src[i], src[i + 1]) then Character(PairValue(src[i], src[i + 1]), 2)
            else Character(src[i] as UTF32, 1)
  {
    if i + 1 < |src| && IsPair(src[i], src[i + 1]) {
      CombineIsPairValue(src[i], src[i + 1]);
    }
  }

  /** Lenient UTF-16 that is accepted is read as what it stands for. */
  lemma {:induction false} Reads16(src: seq<UTF16>, i: nat)
    requires i <= |src| && Advances(Step16to32(LenientConversion))
    requires Full(Step16to32(LenientConversion), src, i).result.ConversionOK?
    ensures Full(Step16to32(LenientConversion), src, i).units == Values16(src, i)
    decreases |src| - i
  {
    var n := Next16(LenientConversion, src, i);
    if i < |src| && n.Character? {
      NextValue16(src, i);
      Reads16Next(src, i, n.length, n.ch);
      Reads16(src, i + n.length);
    }
  }

  lemma NextValue8(src: seq<UTF8>, i: nat)
    requires i < |src| && Next8(src, i).Character?
    ensures var n := Length37(src[i]);
            i + n <= |src| && Next8(src, i) == Character(Sum8(src[i..i + n]), n)
  {
    LegalDecodes(src[i..i + Trailing(src[i]) + 1]);
    LengthOfLegal(src[i..i + Trailing(src[i]) + 1]);
    Decode8IsSum(src[i..i + Length37(src[i])]);
  }

  lemma LengthOfLegal(s: seq<UTF8>)
    requires Legal8(s)
    ensures |s| == Length37(s[0])
  {
  }

  lemma {:induction false} Reads8(src: seq<UTF8>, i: nat)
    requires i <= |src| && Advances(Step8to32()) && Full(Step8to32(), src, i).result.ConversionOK?
    ensures Full(Step8to32(), src, i).units == Values8(src, i)
    decreases |src| - i
  {
    if i < |src| {
      NextValue8(src, i);
      Reads8(src, i + Length37(src[i]));
    }
  }

  /** Where the first step reads a value, the second writes that value's form. */
  ghost predicate Parallel<C, T>(a: Step<C>, b: Step<T>, form: C -> seq<T>) {
    match a
    case Stop(why) => b == Stop(why)
    case Chunk(n, units, bad) => |units| == 1 && b == Chunk(n, form(units[0]), bad)
  }

  lemma {:induction false} WritesForms<S(!new), C, T>(a: (seq<S>, nat) -> Step<C>, b: (seq<S>, nat) -> Step<T>,
                                                     form: C -> seq<T>, src: seq<S>, i: nat)
    requires Advances(a) && Advances(b) && i <= |src|
    requires forall k: nat | k <= |src| :: Parallel(a(src, k), b(src, k), form)
    ensures Full(b, src, i).units == Encoded(form, Full(a, src, i).units)
    decreases |src| - i
  {
    assert Proper(a(src, i), |src| - i) && Parallel(a(src, i), b(src, i), form);
    if a(src, i).Chunk? {
      var next := i + a(src, i).length;
      WritesForms(a, b, form, src, next);
      assert (a(src, i).units + Full(a, src, next).units)[1..] == Full(a, src, next).units;
    }
  }

  /** Every value a converter from UTF-16 or UTF-8 reads, it writes in its other form. */
  lemma WritesWhatItReads(flags: ConversionFlags, src16: seq<UTF16>, src8: seq<UTF8>)
    ensures Advances(Step16to32(flags)) && Advances(Step16to8(flags)) && Advances(Step8to32()) && Advances(Step8to16())
    ensures Full(Step16to8(flags), src16, 0).units == Encoded(Units8, Full(Step16to32(flags), src16, 0).units)
    ensures Full(Step8to16(), src8, 0).units == Encoded(Units16, Full(Step8to32(), src8, 0).units)
  {
    Advances16to32(flags);
    Advances16to8(flags);
    Advances8to32();
    Advances8to16();
    WritesForms(Step16to32(flags), Step16to8(flags), Units8, src16, 0);
    WritesForms(Step8to32(), Step8to16(), Units16, src8, 0);
  }

  /** U+1F600 in all three forms, and one value of each other length. */
  lemma ByTheNumbers()
    ensures Units16(0x1F600) == [0xD83D, 0xDE00] && Combine(0xD83D, 0xDE00) == 0x1F600
    ensures Units8(0x1F600) == [0xF0, 0x9F, 0x98, 0x80] && Decode8([0xF0, 0x9F, 0x98, 0x80]) == 0x1F600
    ensures Units8(0x20AC) == [0xE2, 0x82, 0xAC] && Units8(0xE9) == [0xC3, 0xA9] && Units8(0x41) == [0x41]
    ensures Units8(REPLACEMENT_CHAR) == [0xEF, 0xBF, 0xBD] && REPLACEMENT_CHAR == 0xFFFD
  {
  }

  /** Lenient, what UTF-16 cannot hold is written as U+FFFD. */
  lemma ReplacedByTheNumbers()
    ensures Advances(Step32to16(LenientConversion))
    ensures Full(Step32to16(LenientConversion), [0xD800, 0x110000, 0x41], 0) ==
            Outcome(ConversionOK, 3, [0xFFFD, 0xFFFD, 0x41])
  {
    var src: seq<UTF32> := [0xD800, 0x110000, 0x41];
    LenientReplaces16(src, 0);
    assert src[0..] == src && src[1..][1..] == src[2..] && src[2..][1..] == [];
    assert Encoded(Replacing16, src[2..]) == [0x41];
    assert Encoded(Replacing16, src[1..]) == [0xFFFD] + [0x41];
  }

  /** A pair read by either converter from UTF-16, with either flag. */
  lemma PairRead(flags: ConversionFlags, high: UTF16, low: UTF16)
    requires IsPair(high, low)
    ensures Advances(Step16to32(flags)) && Advances(Step16to8(flags))
    ensures Full(Step16to32(flags), [high, low], 0) == Outcome(ConversionOK, 2, [PairValue(high, low)])
    ensures Full(Step16to8(flags), [high, low], 0) == Outcome(ConversionOK, 2, Units8(PairValue(high, low)))
  {
    Advances16to32(flags);
    Advances16to8(flags);
    CombineIsPairValue(high, low);
    var src, v := [high, low], PairValue(high, low);
    assert Next16(flags, src, 0) == Character(v, 2) && Next16(flags, src, 2) == None(ConversionOK);
    assert Full(Step16to32(flags), src, 2) == Outcome(ConversionOK, 2, []);
    assert Full(Step16to8(flags), src, 2) == Outcome(ConversionOK, 2, []);
    assert Units8(v) + [] == Units8(v);
  }
}
