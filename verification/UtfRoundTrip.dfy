/** What the converters promise together: every form of a text becomes every other form
    of the same text, there and back again; what is accepted; and, from UTF-8 and UTF-16,
    that buffers of any size make no difference. */
module UtfRoundTrip {
  import opened Utf
  import opened ConversionRuns
  import opened ConvertUtf

  predicate Scalars(chs: seq<UTF32>) {
    forall k :: 0 <= k < |chs| ==> IsScalar(chs[k])
  }

  function Unit32(ch: UTF32): seq<UTF32> {
    [ch]
  }

  /** A text in one of the three forms. */
  function Encoded<C, T>(form: C -> seq<T>, chs: seq<C>): seq<T> {
    if chs == [] then [] else form(chs[0]) + Encoded(form, chs[1..])
  }

  predicate At<S(==)>(src: seq<S>, i: nat, units: seq<S>) {
    i + |units| <= |src| && src[i..i + |units|] == units
  }

  // ------------------------------------------------------ one character

  lemma NextOf16(flags: ConversionFlags, ch: UTF32, src: seq<UTF16>, i: nat)
    requires IsScalar(ch) && At(src, i, Units16(ch))
    ensures Next16(flags, src, i) == Character(ch, |Units16(ch)|)
  {
    var u := Units16(ch);
    assert src[i] == src[i..i + |u|][0];
    if ch <= MAX_BMP {
      Narrowed(ch);
    } else {
      assert src[i + 1] == src[i..i + |u|][1];
      HalvesAreSurrogates(ch);
      HalvesCombine(ch);
    }
  }

  lemma Narrowed(ch: UTF32)
    requires ch <= MAX_BMP && !IsSurrogate(ch)
    ensures var u := (ch & 0xFFFF) as UTF16; u as UTF32 == ch && !IsHigh(u) && !IsLow(u)
  {
  }

  lemma NextOf8(ch: UTF32, src: seq<UTF8>, i: nat)
    requires IsScalar(ch) && At(src, i, Units8(ch))
    ensures Next8(src, i) == Character(ch, |Units8(ch)|)
  {
    EncodeDecodes(ch);
    assert src[i] == Units8(ch)[0];
  }

  lemma Cut<S>(src: seq<S>, i: nat, n: nat)
    requires i + n <= |src|
    ensures src[i..] == src[i..i + n] + src[i + n..]
  {
  }

  /** A step that takes a character in one form to the same character in another. */
  ghost predicate Codes<S(!new), T>(step: (seq<S>, nat) -> Step<T>, from: UTF32 -> seq<S>, to: UTF32 -> seq<T>) {
    forall ch: UTF32, src: seq<S>, i: nat :: CodesAt(step, from, to, ch, src, i)
  }

  predicate CodesAt<S(==), T(==)>(step: (seq<S>, nat) -> Step<T>, from: UTF32 -> seq<S>, to: UTF32 -> seq<T>,
                                  ch: UTF32, src: seq<S>, i: nat) {
    IsScalar(ch) && At(src, i, from(ch)) ==> step(src, i) == Chunk(|from(ch)|, to(ch), false)
  }

  lemma Codes16(flags: ConversionFlags)
    ensures Codes(Step16to8(flags), Units16, Units8) && Codes(Step16to32(flags), Units16, Unit32)
  {
    forall ch: UTF32, src: seq<UTF16>, i: nat | IsScalar(ch) && At(src, i, Units16(ch)) {
      NextOf16(flags, ch, src, i);
    }
  }

  lemma Codes8()
    ensures Codes(Step8to16(), Units8, Units16) && Codes(Step8to32(), Units8, Unit32)
  {
    forall ch: UTF32, src: seq<UTF8>, i: nat | IsScalar(ch) && At(src, i, Units8(ch)) {
      NextOf8(ch, src, i);
    }
  }

  lemma Codes32(flags: ConversionFlags)
    ensures Codes(Step32to8(flags), Unit32, Units8) && Codes(Step32to16(flags), Unit32, Units16)
  {
    forall ch: UTF32, src: seq<UTF32>, i: nat | IsScalar(ch) && At(src, i, Unit32(ch))
      ensures src[i] == ch
    {
      assert src[i] == src[i..i + 1][0];
    }
  }

  // ------------------------------------------------------------ whole texts

  lemma EncodedAt<S>(form: UTF32 -> seq<S>, src: seq<S>, i: nat, chs: seq<UTF32>)
    requires i <= |src| && chs != [] && src[i..] == Encoded(form, chs)
    ensures var u := form(chs[0]); At(src, i, u) && src[i + |u|..] == Encoded(form, chs[1..])
  {
    var u := form(chs[0]);
    assert src[i..i + |u|] == src[i..][..|u|];
    assert src[i + |u|..] == src[i..][|u|..];
  }

  lemma FullFirst<S(!new), T>(step: (seq<S>, nat) -> Step<T>, src: seq<S>, i: nat, n: nat, to: UTF32 -> seq<T>,
                              chs: seq<UTF32>)
    requires Advances(step) && chs != [] && i + n <= |src| && step(src, i) == Chunk(n, to(chs[0]), false)
    requires Full(step, src, i + n) == Outcome(ConversionOK, |src|, Encoded(to, chs[1..]))
    ensures Full(step, src, i) == Outcome(ConversionOK, |src|, Encoded(to, chs))
  {
  }

  lemma {:induction false} FullEncodes<S(!new), T>(step: (seq<S>, nat) -> Step<T>, from: UTF32 -> seq<S>,
                                                  to: UTF32 -> seq<T>, src: seq<S>, i: nat, chs: seq<UTF32>)
    requires Advances(step) && Codes(step, from, to) && Scalars(chs)
    requires i <= |src| && src[i..] == Encoded(from, chs)
    ensures Full(step, src, i) == Outcome(ConversionOK, |src|, Encoded(to, chs))
    decreases |chs|
  {
    if chs == [] {
      assert Proper(step(src, i), 0);
    } else {
      EncodedAt(from, src, i, chs);
      assert CodesAt(step, from, to, chs[0], src, i);
      FullEncodes(step, from, to, src, i + |from(chs[0])|, chs[1..]);
      FullFirst(step, src, i, |from(chs[0])|, to, chs);
    }
  }

  /** Each of the six converters, strict or lenient, takes its form of any sequence of
      scalar values to the other form of the same sequence, all of it. */
  lemma ConvertsText(flags: ConversionFlags, chs: seq<UTF32>)
    requires Scalars(chs)
    ensures var s8, s16 := Encoded(Units8, chs), Encoded(Units16, chs);
            && Advances(Step16to8(flags)) && Full(Step16to8(flags), s16, 0) == Outcome(ConversionOK, |s16|, s8)
            && Advances(Step16to32(flags)) && Full(Step16to32(flags), s16, 0) == Outcome(ConversionOK, |s16|, chs)
            && Advances(Step8to16()) && Full(Step8to16(), s8, 0) == Outcome(ConversionOK, |s8|, s16)
            && Advances(Step8to32()) && Full(Step8to32(), s8, 0) == Outcome(ConversionOK, |s8|, chs)
            && Advances(Step32to8(flags)) && Full(Step32to8(flags), chs, 0) == Outcome(ConversionOK, |chs|, s8)
            && Advances(Step32to16(flags)) && Full(Step32to16(flags), chs, 0) == Outcome(ConversionOK, |chs|, s16)
  {
    Encoded32(chs);
    ConvertsFrom16(flags, chs);
    ConvertsFrom8(chs);
    ConvertsFrom32(flags, chs);
  }

  lemma {:induction false} Encoded32(chs: seq<UTF32>)
    ensures Encoded(Unit32, chs) == chs
  {
    if chs != [] {
      Encoded32(chs[1..]);
    }
  }

  lemma ConvertsFrom16(flags: ConversionFlags, chs: seq<UTF32>)
    requires Scalars(chs)
    ensures var s16 := Encoded(Units16, chs);
            && Advances(Step16to8(flags))
            && Full(Step16to8(flags), s16, 0) == Outcome(ConversionOK, |s16|, Encoded(Units8, chs))
            && Advances(Step16to32(flags))
            && Full(Step16to32(flags), s16, 0) == Outcome(ConversionOK, |s16|, Encoded(Unit32, chs))
  {
    var s16 := Encoded(Units16, chs);
    Codes16(flags);
    Advances16to8(flags);
    Advances16to32(flags);
    assert s16[0..] == s16;
    FullEncodes(Step16to8(flags), Units16, Units8, s16, 0, chs);
    FullEncodes(Step16to32(flags), Units16, Unit32, s16, 0, chs);
  }

  lemma ConvertsFrom8(chs: seq<UTF32>)
    requires Scalars(chs)
    ensures var s8 := Encoded(Units8, chs);
            && Advances(Step8to16()) && Full(Step8to16(), s8, 0) == Outcome(ConversionOK, |s8|, Encoded(Units16, chs))
            && Advances(Step8to32()) && Full(Step8to32(), s8, 0) == Outcome(ConversionOK, |s8|, Encoded(Unit32, chs))
  {
    var s8 := Encoded(Units8, chs);
    Codes8();
    Advances8to16();
    Advances8to32();
    assert s8[0..] == s8;
    FullEncodes(Step8to16(), Units8, Units16, s8, 0, chs);
    FullEncodes(Step8to32(), Units8, Unit32, s8, 0, chs);
  }

  lemma ConvertsFrom32(flags: ConversionFlags, chs: seq<UTF32>)
    requires Scalars(chs)
    ensures Advances(Step32to8(flags))
    ensures Full(Step32to8(flags), chs, 0) == Outcome(ConversionOK, |chs|, Encoded(Units8, chs))
    ensures Advances(Step32to16(flags))
    ensures Full(Step32to16(flags), chs, 0) == Outcome(ConversionOK, |chs|, Encoded(Units16, chs))
  {
    Codes32(flags);
    Advances32to8(flags);
    Advances32to16(flags);
    Encoded32(chs);
    assert chs[0..] == chs;
    FullEncodes(Step32to8(flags), Unit32, Units8, chs, 0, chs);
    FullEncodes(Step32to16(flags), Unit32, Units16, chs, 0, chs);
  }

  // ------------------------------------------------- what is accepted, exactly

  ghost predicate WellFormed16(src: seq<UTF16>) {
    exists chs: seq<UTF32> :: Scalars(chs) && Encoded(Units16, chs) == src
  }

  /** From the cursor on, the bytes are sequences of Table 3-7, one after the other. */
  predicate WellFormed8(src: seq<UTF8>, i: nat)
    requires i <= |src|
    decreases |src| - i
  {
    i == |src| ||
    (i + Trailing(src[i]) + 1 <= |src| && InTable37(src[i..i + Trailing(src[i]) + 1])
     && WellFormed8(src, i + Trailing(src[i]) + 1))
  }

  lemma Read16(src: seq<UTF16>, i: nat)
    requires Next16(StrictConversion, src, i).Character?
    ensures var n := Next16(StrictConversion, src, i);
            IsScalar(n.ch) && i + n.length <= |src| && src[i..i + n.length] == Units16(n.ch)
  {
    if IsHigh(src[i]) {
      ReadPair(src, i);
    } else {
      ReadOne(src, i);
    }
  }

  lemma ReadPair(src: seq<UTF16>, i: nat)
    requires i + 1 < |src| && IsHigh(src[i]) && IsLow(src[i + 1])
    ensures var ch := Combine(src[i], src[i + 1]); IsScalar(ch) && src[i..i + 2] == Units16(ch)
  {
    Pairs(src[i], src[i + 1]);
    assert src[i..i + 2] == [src[i], src[i + 1]];
  }

  lemma ReadOne(src: seq<UTF16>, i: nat)
    requires i < |src| && !IsHigh(src[i]) && !IsLow(src[i])
    ensures var ch := src[i] as UTF32; IsScalar(ch) && src[i..i + 1] == Units16(ch)
  {
    Widens(src[i]);
    assert src[i..i + 1] == [src[i]];
  }

  lemma Pairs(high: UTF16, low: UTF16)
    requires IsHigh(high) && IsLow(low)
    ensures IsScalar(Combine(high, low)) && Units16(Combine(high, low)) == [high, low]
  {
    CombineSplits(high, low);
    AboveSurrogates(Combine(high, low));
  }

  lemma AboveSurrogates(ch: UTF32)
    requires MAX_BMP < ch <= MAX_LEGAL
    ensures IsScalar(ch)
  {
  }

  lemma Widens(u: UTF16)
    requires !IsHigh(u) && !IsLow(u)
    ensures IsScalar(u as UTF32) && Units16(u as UTF32) == [u]
  {
    Widened(u);
    WidenedBack(u);
  }

  lemma WidenedBack(u: UTF16)
    ensures (u as UTF32 & 0xFFFF) as UTF16 == u
    ensures !IsHigh(u) && !IsLow(u) ==> !IsSurrogate(u as UTF32)
  {
  }

  /** Whatever a strict run over UTF-16 accepts is UTF-16, of the values it reads. */
  lemma {:induction false} Accepted16(src: seq<UTF16>, i: nat)
    requires Advances(Step16to32(StrictConversion)) && i <= |src|
    requires Full(Step16to32(StrictConversion), src, i).result.ConversionOK?
    ensures var chs := Full(Step16to32(StrictConversion), src, i).units;
            Scalars(chs) && Encoded(Units16, chs) == src[i..]
    decreases |src| - i
  {
    var step := Step16to32(StrictConversion);
    assert Proper(step(src, i), |src| - i);
    if i < |src| {
      Read16(src, i);
      var n := Next16(StrictConversion, src, i);
      Accepted16(src, i + n.length);
      Cut(src, i, n.length);
    }
  }

  predicate SameCourse<T, U>(a: Step<T>, b: Step<U>) {
    match a
    case Stop(why) => b == Stop(why)
    case Chunk(n, _, bad) => b.Chunk? && b.length == n && b.bad == bad
  }

  /** Steps that agree on what a character is stop at the same place, for the same reason. */
  lemma {:induction false} SameStops<S(!new), T, U>(a: (seq<S>, nat) -> Step<T>, b: (seq<S>, nat) -> Step<U>,
                                                    src: seq<S>, i: nat)
    requires Advances(a) && Advances(b) && i <= |src|
    requires forall k: nat :: k <= |src| ==> SameCourse(a(src, k), b(src, k))
    ensures Full(a, src, i).result == Full(b, src, i).result && Full(a, src, i).cursor == Full(b, src, i).cursor
    decreases |src| - i
  {
    assert Proper(a(src, i), |src| - i) && SameCourse(a(src, i), b(src, i));
    if a(src, i).Chunk? {
      SameStops(a, b, src, i + a(src, i).length);
    }
  }

  lemma SameRead16(flags: ConversionFlags, src: seq<UTF16>)
    requires Advances(Step16to32(flags)) && Advances(Step16to8(flags))
    ensures Full(Step16to8(flags), src, 0).result == Full(Step16to32(flags), src, 0).result
  {
    SameStops(Step16to8(flags), Step16to32(flags), src, 0);
  }

  /** Strict, UTF-16 is accepted exactly when it is the UTF-16 form of some text. */
  lemma StrictAccepts16(src: seq<UTF16>)
    ensures Advances(Step16to8(StrictConversion))
    ensures Full(Step16to8(StrictConversion), src, 0).result.ConversionOK? <==> WellFormed16(src)
  {
    Advances16to8(StrictConversion);
    Advances16to32(StrictConversion);
    SameRead16(StrictConversion, src);
    if Full(Step16to8(StrictConversion), src, 0).result.ConversionOK? {
      Accepted16(src, 0);
      assert src[0..] == src;
    }
    if WellFormed16(src) {
      var chs: seq<UTF32> :| Scalars(chs) && Encoded(Units16, chs) == src;
      ConvertsText(StrictConversion, chs);
    }
  }

  /** Lenient, it is accepted exactly when it does not end with half a pair. */
  lemma LenientAccepts16(src: seq<UTF16>, i: nat)
    requires i <= |src|
    ensures Advances(Step16to8(LenientConversion)) && Advances(Step16to32(LenientConversion))
    ensures Full(Step16to8(LenientConversion), src, i).result.ConversionOK? <==> i == |src| || !IsHigh(src[|src| - 1])
    ensures Full(Step16to32(LenientConversion), src, i).result.ConversionOK? <==> i == |src| || !IsHigh(src[|src| - 1])
  {
    Advances16to8(LenientConversion);
    Advances16to32(LenientConversion);
    EndsWhole16(src, i);
    SameStops(Step16to8(LenientConversion), Step16to32(LenientConversion), src, i);
  }

  lemma {:induction false} EndsWhole16(src: seq<UTF16>, i: nat)
    requires Advances(Step16to32(LenientConversion)) && i <= |src|
    ensures Full(Step16to32(LenientConversion), src, i).result.ConversionOK? <==> i == |src| || !IsHigh(src[|src| - 1])
    decreases |src| - i
  {
    if i < |src| {
      var n := Next16(LenientConversion, src, i);
      LenientNext16(src, i);
      if n.Character? {
        EndsWhole16(src, i + n.length);
      }
    }
  }

  lemma LenientNext16(src: seq<UTF16>, i: nat)
    requires i < |src|
    ensures var n := Next16(LenientConversion, src, i);
            if n.Character? then 0 < n.length <= |src| - i && (i + n.length == |src| ==> !IsHigh(src[|src| - 1]))
            else n == None(SourceExhausted) && i + 1 == |src| && IsHigh(src[i])
  {
  }

  /** Strict, UTF-32 is accepted exactly when every unit is a scalar value. */
  lemma {:induction false} StrictAccepts32(src: seq<UTF32>, i: nat)
    requires i <= |src|
    ensures Advances(Step32to8(StrictConversion)) && Advances(Step32to16(StrictConversion))
    ensures Full(Step32to8(StrictConversion), src, i).result.ConversionOK? <==> Scalars(src[i..])
    ensures Full(Step32to16(StrictConversion), src, i).result.ConversionOK? <==> Scalars(src[i..])
    decreases |src| - i
  {
    Advances32to8(StrictConversion);
    Advances32to16(StrictConversion);
    if i < |src| {
      StrictAccepts32(src, i + 1);
      assert src[i..] == [src[i]] + src[i + 1..];
      ScalarsFirst(src[i], src[i + 1..]);
    }
  }

  lemma ScalarsFirst(ch: UTF32, chs: seq<UTF32>)
    ensures Scalars([ch] + chs) <==> IsScalar(ch) && Scalars(chs)
  {
    if Scalars([ch] + chs) {
      assert IsScalar(([ch] + chs)[0]);
      forall k | 0 <= k < |chs|
        ensures IsScalar(chs[k])
      {
        assert ([ch] + chs)[k + 1] == chs[k];
      }
    }
  }

  // -------------------------------------------------------------- there and back

  lemma {:induction false} Lengths(chs: seq<UTF32>)
    ensures |Encoded(Units8, chs)| <= 3 * |Encoded(Units16, chs)| && |Encoded(Units8, chs)| <= 4 * |chs|
    ensures |Encoded(Units16, chs)| <= |Encoded(Units8, chs)|
  {
    if chs != [] {
      Lengths(chs[1..]);
    }
  }

  /** UTF-16 to UTF-8 and back, strict, into buffers no smaller than these: exactly the
      well-formed inputs pass, and come back as they were. */
  lemma RoundTrip16(src: seq<UTF16>, room: nat, back: nat)
    requires 3 * |src| <= room && |src| <= back
    ensures Advances(Step16to8(StrictConversion)) && Advances(Step8to16())
    ensures var there := Run(Step16to8(StrictConversion), false, src, 0, room);
            && (there.result.ConversionOK? <==> WellFormed16(src))
            && (there.result.ConversionOK? ==>
                 && there.cursor == |src|
                 && Run(Step8to16(), false, there.units, 0, back) == Outcome(ConversionOK, |there.units|, src))
  {
    Advances16to8(StrictConversion);
    Advances8to16();
    StrictAccepts16(src);
    if WellFormed16(src) {
      var chs: seq<UTF32> :| Scalars(chs) && Encoded(Units16, chs) == src;
      ConvertsText(StrictConversion, chs);
      Lengths(chs);
      RunFits(Step16to8(StrictConversion), false, src, 0, room);
      RunFits(Step8to16(), false, Encoded(Units8, chs), 0, back);
    } else {
      Rejected16(src, room);
    }
  }

  /** More room never turns a refusal into an acceptance. */
  lemma Rejected16(src: seq<UTF16>, room: nat)
    requires Advances(Step16to8(StrictConversion)) && !Full(Step16to8(StrictConversion), src, 0).result.ConversionOK?
    ensures !Run(Step16to8(StrictConversion), false, src, 0, room).result.ConversionOK?
  {
    Advances16to8(StrictConversion);
    RunStopsAtCharacter(Step16to8(StrictConversion), 4, src, 0, room);
  }

  /** UTF-32 to UTF-8 and back, strict. */
  lemma RoundTrip32(src: seq<UTF32>, room: nat, back: nat)
    requires Scalars(src) && 4 * |src| <= room && |src| <= back
    ensures Advances(Step32to8(StrictConversion)) && Advances(Step8to32())
    ensures var there := Run(Step32to8(StrictConversion), false, src, 0, room);
            && there.result.ConversionOK? && there.cursor == |src|
            && Run(Step8to32(), false, there.units, 0, back) == Outcome(ConversionOK, |there.units|, src)
  {
    ConvertsText(StrictConversion, src);
    Lengths(src);
    RunFits(Step32to8(StrictConversion), false, src, 0, room);
    RunFits(Step8to32(), false, Encoded(Units8, src), 0, back);
  }

  /** The values read from accepted bytes, and when writing them gives the bytes back. */
  lemma {:induction false} Accepted8(src: seq<UTF8>, i: nat)
    requires Advances(Step8to32()) && i <= |src| && Full(Step8to32(), src, i).result.ConversionOK?
    ensures var chs := Full(Step8to32(), src, i).units;
            Scalars(chs) && (Encoded(Units8, chs) == src[i..] <==> WellFormed8(src, i))
    decreases |src| - i
  {
    assert Proper(Step8to32()(src, i), |src| - i);
    if i < |src| {
      var n := Next8(src, i);
      Accepted8(src, i + n.length);
      Accepted8First(src, i, Full(Step8to32(), src, i + n.length).units);
      ScalarsFirst(n.ch, Full(Step8to32(), src, i + n.length).units);
    }
  }

  lemma ChunkAt(src: seq<UTF8>, i: nat)
    requires i < |src| && Next8(src, i).Character?
    ensures var n := Next8(src, i);
            && n.length == Trailing(src[i]) + 1 && i + n.length <= |src| && IsScalar(n.ch)
            && |Units8(n.ch)| == n.length && (Units8(n.ch) == src[i..i + n.length] <==> InTable37(src[i..i + n.length]))
  {
    var s := src[i..i + Trailing(src[i]) + 1];
    LegalDecodes(s);
    ReencodesIffInTable(s);
  }

  lemma Accepted8First(src: seq<UTF8>, i: nat, chs: seq<UTF32>)
    requires i < |src| && Next8(src, i).Character?
    requires var next := i + Next8(src, i).length;
             next <= |src| && (Encoded(Units8, chs) == src[next..] <==> WellFormed8(src, next))
    ensures var n := Next8(src, i);
            IsScalar(n.ch) && (Encoded(Units8, [n.ch] + chs) == src[i..] <==> WellFormed8(src, i))
  {
    var n := Next8(src, i);
    var s := src[i..i + n.length];
    ChunkAt(src, i);
    Cut(src, i, n.length);
    assert ([n.ch] + chs)[1..] == chs;
    SplitEqual(Units8(n.ch), Encoded(Units8, chs), s, src[i + n.length..]);
  }

  lemma SplitEqual<T>(a: seq<T>, b: seq<T>, c: seq<T>, d: seq<T>)
    requires |a| == |c|
    ensures a + b == c + d <==> a == c && b == d
  {
    if a + b == c + d {
      assert a == (a + b)[..|a|] == c;
      assert b == (a + b)[|a|..] == d;
    }
  }

  lemma {:induction false} WellFormed8Accepted(src: seq<UTF8>, i: nat)
    requires Advances(Step8to32()) && i <= |src| && WellFormed8(src, i)
    ensures Full(Step8to32(), src, i).result.ConversionOK?
    decreases |src| - i
  {
    if i < |src| {
      WellFormed8Accepted(src, i + Trailing(src[i]) + 1);
    }
  }

  /** From the cursor on, the bytes are sequences the legality test accepts, one after
      the other. */
  predicate AllLegal8(src: seq<UTF8>, i: nat)
    requires i <= |src|
    decreases |src| - i
  {
    i == |src| ||
    (i + Trailing(src[i]) + 1 <= |src| && Legal8(src[i..i + Trailing(src[i]) + 1])
     && AllLegal8(src, i + Trailing(src[i]) + 1))
  }

  /** One of these has an overlooked second byte. */
  predicate SomeOverlooked(src: seq<UTF8>, i: nat)
    requires i <= |src|
    decreases |src| - i
  {
    i < |src| && i + Trailing(src[i]) + 1 <= |src| &&
    (Overlooked(src[i..i + Trailing(src[i]) + 1]) || SomeOverlooked(src, i + Trailing(src[i]) + 1))
  }

  /** With either flag and to either form, UTF-8 is accepted exactly when it divides into
      such sequences. */
  lemma Accepts8(src: seq<UTF8>, i: nat)
    requires i <= |src|
    ensures Advances(Step8to32()) && Advances(Step8to16())
    ensures Full(Step8to32(), src, i).result.ConversionOK? <==> AllLegal8(src, i)
    ensures Full(Step8to16(), src, i).result.ConversionOK? <==> AllLegal8(src, i)
  {
    Advances8to32();
    Advances8to16();
    AcceptsLegal8(src, i);
    SameStops(Step8to16(), Step8to32(), src, i);
  }

  lemma {:induction false} AcceptsLegal8(src: seq<UTF8>, i: nat)
    requires Advances(Step8to32()) && i <= |src|
    ensures Full(Step8to32(), src, i).result.ConversionOK? <==> AllLegal8(src, i)
    decreases |src| - i
  {
    assert Proper(Step8to32()(src, i), |src| - i);
    if i < |src| && Next8(src, i).Character? {
      AcceptsLegal8(src, i + Next8(src, i).length);
    }
  }

  /** What is accepted is well formed exactly when nothing in it was overlooked. */
  lemma {:induction false} WellFormedUnlessOverlooked(src: seq<UTF8>, i: nat)
    requires i <= |src|
    ensures WellFormed8(src, i) <==> AllLegal8(src, i) && !SomeOverlooked(src, i)
    decreases |src| - i
  {
    if i < |src| && i + Trailing(src[i]) + 1 <= |src| {
      WellFormedUnlessOverlooked(src, i + Trailing(src[i]) + 1);
      NotBoth(src[i..i + Trailing(src[i]) + 1]);
    }
  }

  lemma NotBoth(s: seq<UTF8>)
    ensures !(InTable37(s) && Overlooked(s))
  {
  }

  /** Table 3-7 describes the UTF-8 forms of texts, and nothing else. */
  lemma WellFormed8IsText(src: seq<UTF8>)
    ensures WellFormed8(src, 0) <==> exists chs: seq<UTF32> :: Scalars(chs) && Encoded(Units8, chs) == src
  {
    Advances8to32();
    assert src[0..] == src;
    if WellFormed8(src, 0) {
      WellFormed8Accepted(src, 0);
      Accepted8(src, 0);
    }
    if chs: seq<UTF32> :| Scalars(chs) && Encoded(Units8, chs) == src {
      ConvertsText(StrictConversion, chs);
      Accepted8(src, 0);
    }
  }

  /** UTF-8 to UTF-32 and back: what is accepted on the way there is accepted on the
      way back, and comes back as it was exactly when it was well formed. */
  lemma RoundTrip8(src: seq<UTF8>, flags: ConversionFlags)
    ensures Advances(Step8to32()) && Advances(Step32to8(flags))
    ensures WellFormed8(src, 0) ==> Full(Step8to32(), src, 0).result.ConversionOK?
    ensures var there := Full(Step8to32(), src, 0);
            there.result.ConversionOK? ==>
              var again := Full(Step32to8(flags), there.units, 0);
              again.result.ConversionOK? && (again.units == src <==> WellFormed8(src, 0))
  {
    Advances8to32();
    Advances32to8(flags);
    if WellFormed8(src, 0) {
      WellFormed8Accepted(src, 0);
    }
    if Full(Step8to32(), src, 0).result.ConversionOK? {
      Accepted8(src, 0);
      assert src[0..] == src;
      ConvertsText(flags, Full(Step8to32(), src, 0).units);
    }
  }

  // --------------------------------------------------------- buffers of any size

  /** Writing UTF-16 on through any fresh buffers: the same output, consumption and
      status as one call with enough room; and it ends, if the buffers hold a character. */
  lemma AnyBuffers16(flags: ConversionFlags, src: seq<UTF16>, rooms: seq<nat>)
    requires rooms != []
    ensures Advances(Step16to8(flags)) && Advances(Step16to32(flags))
    ensures Refill(Step16to8(flags), false, src, 0, rooms).result != TargetExhausted ==>
              Refill(Step16to8(flags), false, src, 0, rooms) == Full(Step16to8(flags), src, 0)
    ensures Refill(Step16to32(flags), false, src, 0, rooms).result != TargetExhausted ==>
              Refill(Step16to32(flags), false, src, 0, rooms) == Full(Step16to32(flags), src, 0)
    ensures Ample(rooms, 4, |src|) ==>
              && Refill(Step16to8(flags), false, src, 0, rooms) == Full(Step16to8(flags), src, 0)
              && Refill(Step16to32(flags), false, src, 0, rooms) == Full(Step16to32(flags), src, 0)
  {
    Advances16to8(flags);
    Advances16to32(flags);
    AnyBuffers(Step16to8(flags), 4, src, rooms);
    AnyBuffers(Step16to32(flags), 1, src, rooms);
  }

  lemma AnyBuffers8(src: seq<UTF8>, rooms: seq<nat>)
    requires rooms != []
    ensures Advances(Step8to16()) && Advances(Step8to32())
    ensures Refill(Step8to16(), false, src, 0, rooms).result != TargetExhausted ==>
              Refill(Step8to16(), false, src, 0, rooms) == Full(Step8to16(), src, 0)
    ensures Refill(Step8to32(), false, src, 0, rooms).result != TargetExhausted ==>
              Refill(Step8to32(), false, src, 0, rooms) == Full(Step8to32(), src, 0)
    ensures Ample(rooms, 2, |src|) ==>
              && Refill(Step8to16(), false, src, 0, rooms) == Full(Step8to16(), src, 0)
              && Refill(Step8to32(), false, src, 0, rooms) == Full(Step8to32(), src, 0)
  {
    Advances8to16();
    Advances8to32();
    AnyBuffers(Step8to16(), 2, src, rooms);
    AnyBuffers(Step8to32(), 1, src, rooms);
  }

  lemma AnyBuffers<S(!new), T>(step: (seq<S>, nat) -> Step<T>, most: nat, src: seq<S>, rooms: seq<nat>)
    requires AllPlain(step, most) && Advances(step) && rooms != []
    ensures Refill(step, false, src, 0, rooms).result != TargetExhausted ==>
              Refill(step, false, src, 0, rooms) == Full(step, src, 0)
    ensures Ample(rooms, most, |src|) ==>
              Refill(step, false, src, 0, rooms) == Full(step, src, 0)
  {
    if Refill(step, false, src, 0, rooms).result != TargetExhausted {
      RefillIsFull(step, most, src, 0, rooms);
    }
    if Ample(rooms, most, |src|) {
      RefillFinishes(step, most, src, 0, rooms);
    }
  }

  // ------------------------------------------------- where an illegal value leaves UTF-32

  /** What a converter from UTF-32 is to call illegal. */
  function Illegal(flags: ConversionFlags): UTF32 -> bool {
    (ch: UTF32) => ch > MAX_LEGAL || (flags.StrictConversion? && IsSurrogate(ch))
  }

  function Refused(flags: ConversionFlags): UTF32 -> bool {
    (ch: UTF32) => flags.StrictConversion? && IsSurrogate(ch)
  }

  /** On the way to UTF-16, a value above 0x10FFFF is dropped. */
  function Dropping16(ch: UTF32): seq<UTF16> {
    if ch > MAX_LEGAL then [] else Units16(ch)
  }

  function Replacing8(ch: UTF32): seq<UTF8> {
    Units8(if ch > MAX_LEGAL then REPLACEMENT_CHAR else ch)
  }

  function Replacing16(ch: UTF32): seq<UTF16> {
    if ch > MAX_LEGAL || IsSurrogate(ch) then [0xFFFD] else Units16(ch)
  }

  /** On the way to UTF-16 nothing is illegal if the flag is lenient. */
  function Illegal16(flags: ConversionFlags): UTF32 -> bool {
    if flags.StrictConversion? then Illegal(flags) else (ch: UTF32) => false
  }

  function Writing16(flags: ConversionFlags): UTF32 -> seq<UTF16> {
    if flags.StrictConversion? then Dropping16 else Replacing16
  }

  /** The first unit like that from the cursor on, or the end. */
  function First<C>(like: C -> bool, src: seq<C>, i: nat): (f: nat)
    requires i <= |src|
    ensures i <= f <= |src| && (f < |src| ==> like(src[f]))
    ensures forall k :: i <= k < f ==> !like(src[k])
    decreases |src| - i
  {
    if i == |src| || like(src[i]) then i else First(like, src, i + 1)
  }

  /** A step that stops at the units it refuses only, writes something for each of the
      others, and holds the illegal ones against the run. */
  ghost predicate Judges<C(!new), T>(step: (seq<C>, nat) -> Step<T>, illegal: C -> bool, refused: C -> bool,
                                     written: C -> seq<T>) {
    forall src: seq<C>, i: nat :: i <= |src| ==> JudgesAt(step, illegal, refused, written, src, i)
  }

  ghost predicate JudgesAt<C(!new), T>(step: (seq<C>, nat) -> Step<T>, illegal: C -> bool, refused: C -> bool,
                                       written: C -> seq<T>, src: seq<C>, i: nat)
    requires i <= |src|
  {
    if i == |src| then step(src, i) == Stop(ConversionOK)
    else if refused(src[i]) then illegal(src[i]) && step(src, i) == Stop(SourceIllegal)
    else step(src, i) == Chunk(1, written(src[i]), illegal(src[i]))
  }

  lemma Judges16(flags: ConversionFlags)
    ensures Judges(Step32to16(flags), Illegal16(flags), Refused(flags), Writing16(flags))
  {
    forall src: seq<UTF32>, i: nat | i <= |src|
      ensures JudgesAt(Step32to16(flags), Illegal16(flags), Refused(flags), Writing16(flags), src, i)
    {
    }
  }

  lemma Judges8(flags: ConversionFlags)
    ensures Judges(Step32to8(flags), Illegal(flags), Refused(flags), Replacing8)
  {
    forall src: seq<UTF32>, i: nat | i <= |src|
      ensures JudgesAt(Step32to8(flags), Illegal(flags), Refused(flags), Replacing8, src, i)
    {
    }
  }

  /** Such a step goes on to the first unit it refuses, whatever else is illegal. */
  lemma {:induction false} GoesOn<C(!new), T>(step: (seq<C>, nat) -> Step<T>, illegal: C -> bool, refused: C -> bool,
                                             written: C -> seq<T>, src: seq<C>, i: nat)
    requires Advances(step) && Judges(step, illegal, refused, written) && i <= |src|
    ensures var end := First(refused, src, i);
            Full(step, src, i) == Outcome(if First(illegal, src, i) == |src| then ConversionOK else SourceIllegal, end,
                                          Encoded(written, src[i..end]))
    decreases |src| - i
  {
    assert JudgesAt(step, illegal, refused, written, src, i);
    if i < |src| && !refused(src[i]) {
      GoesOn(step, illegal, refused, written, src, i + 1);
      assert src[i..First(refused, src, i)][1..] == src[i + 1..First(refused, src, i)];
    }
  }

  /** Its cursor is at the first illegal unit exactly when it refuses that one. */
  lemma {:induction false} RefusedFirst<C>(illegal: C -> bool, refused: C -> bool, src: seq<C>, i: nat)
    requires i <= |src| && forall k :: i <= k < |src| && refused(src[k]) ==> illegal(src[k])
    ensures var first := First(illegal, src, i);
            First(refused, src, i) == first <==> first == |src| || refused(src[first])
    decreases |src| - i
  {
    if i < |src| && !illegal(src[i]) {
      RefusedFirst(illegal, refused, src, i + 1);
    }
  }

  lemma {:induction false} CursorOfRun<C(!new), T>(step: (seq<C>, nat) -> Step<T>, eager: bool, illegal: C -> bool,
                                                  refused: C -> bool, written: C -> seq<T>,
                                                  src: seq<C>, i: nat, room: nat)
    requires Advances(step) && Judges(step, illegal, refused, written) && i <= |src|
    ensures var o, first := Run(step, eager, src, i, room), First(illegal, src, i);
            o.result == SourceIllegal ==> first < |src| && (o.cursor == first <==> refused(src[first]))
    decreases |src| - i
  {
    assert JudgesAt(step, illegal, refused, written, src, i);
    var c := step(src, i);
    if c.Chunk? && !(eager && room == 0) && |c.units| <= room {
      CursorOfRun(step, eager, illegal, refused, written, src, i + 1, room - |c.units|);
      RunInside(step, eager, src, i + 1, room - |c.units|);
    }
  }

  /** Strict, on the way to UTF-16: a value above 0x10FFFF is dropped, one that stands
      for nothing stops the run, and either makes the answer sourceIllegal. */
  lemma StrictGoesOn16(src: seq<UTF32>, i: nat)
    requires i <= |src|
    ensures Advances(Step32to16(StrictConversion))
    ensures var end := First(Refused(StrictConversion), src, i);
            Full(Step32to16(StrictConversion), src, i) ==
            Outcome(if First(Illegal(StrictConversion), src, i) == |src| then ConversionOK else SourceIllegal, end,
                    Encoded(Dropping16, src[i..end]))
  {
    Advances32to16(StrictConversion);
    Judges16(StrictConversion);
    GoesOn(Step32to16(StrictConversion), Illegal(StrictConversion), Refused(StrictConversion), Dropping16, src, i);
  }

  /** On the way to UTF-8, with either flag, it is replaced. */
  lemma GoesOn8(flags: ConversionFlags, src: seq<UTF32>, i: nat)
    requires i <= |src|
    ensures Advances(Step32to8(flags))
    ensures var end := First(Refused(flags), src, i);
            Full(Step32to8(flags), src, i) ==
            Outcome(if First(Illegal(flags), src, i) == |src| then ConversionOK else SourceIllegal, end,
                    Encoded(Replacing8, src[i..end]))
  {
    Advances32to8(flags);
    Judges8(flags);
    GoesOn(Step32to8(flags), Illegal(flags), Refused(flags), Replacing8, src, i);
  }

  /** Lenient, on the way to UTF-16, nothing is illegal: what is no scalar value is replaced. */
  lemma LenientReplaces16(src: seq<UTF32>, i: nat)
    requires i <= |src|
    ensures Advances(Step32to16(LenientConversion))
    ensures Full(Step32to16(LenientConversion), src, i) == Outcome(ConversionOK, |src|, Encoded(Replacing16, src[i..]))
  {
    var flags := LenientConversion;
    Advances32to16(flags);
    Judges16(flags);
    GoesOn(Step32to16(flags), Illegal16(flags), Refused(flags), Writing16(flags), src, i);
    assert First(Illegal16(flags), src, i) == First(Refused(flags), src, i) == |src| && src[i..|src|] == src[i..];
  }

  lemma RefusedInRange(flags: ConversionFlags, ch: UTF32)
    requires Illegal(flags)(ch)
    ensures Refused(flags)(ch) <==> ch <= MAX_LEGAL
  {
  }

  /** The source cursor is left at the first illegal unit, as is promised for
      sourceIllegal, exactly when that unit is not above 0x10FFFF, or there is none. */
  lemma CursorAtIllegal16(src: seq<UTF32>, i: nat)
    requires i <= |src|
    ensures Advances(Step32to16(StrictConversion))
    ensures var first := First(Illegal(StrictConversion), src, i);
            Full(Step32to16(StrictConversion), src, i).cursor == first <==> first == |src| || src[first] <= MAX_LEGAL
  {
    StrictGoesOn16(src, i);
    RefusedFirst(Illegal(StrictConversion), Refused(StrictConversion), src, i);
    var first := First(Illegal(StrictConversion), src, i);
    if first < |src| {
      RefusedInRange(StrictConversion, src[first]);
    }
  }

  lemma CursorAtIllegal8(flags: ConversionFlags, src: seq<UTF32>, i: nat)
    requires i <= |src|
    ensures Advances(Step32to8(flags))
    ensures var first := First(Illegal(flags), src, i);
            Full(Step32to8(flags), src, i).cursor == first <==> first == |src| || src[first] <= MAX_LEGAL
  {
    GoesOn8(flags, src, i);
    RefusedFirst(Illegal(flags), Refused(flags), src, i);
    var first := First(Illegal(flags), src, i);
    if first < |src| {
      RefusedInRange(flags, src[first]);
    }
  }

  /** The same of any call that answers sourceIllegal, however much room it has. */
  lemma CursorOfCall16(src: seq<UTF32>, i: nat, room: nat)
    requires i <= |src|
    ensures Advances(Step32to16(StrictConversion))
    ensures var o := Run(Step32to16(StrictConversion), true, src, i, room);
            var first := First(Illegal(StrictConversion), src, i);
            o.result == SourceIllegal ==> first < |src| && (o.cursor == first <==> src[first] <= MAX_LEGAL)
  {
    Advances32to16(StrictConversion);
    Judges16(StrictConversion);
    CursorOfRun(Step32to16(StrictConversion), true, Illegal(StrictConversion), Refused(StrictConversion), Dropping16,
                src, i, room);
    var first := First(Illegal(StrictConversion), src, i);
    if first < |src| {
      RefusedInRange(StrictConversion, src[first]);
    }
  }

  lemma CursorOfCall8(flags: ConversionFlags, src: seq<UTF32>, i: nat, room: nat)
    requires i <= |src|
    ensures Advances(Step32to8(flags))
    ensures var o, first := Run(Step32to8(flags), false, src, i, room), First(Illegal(flags), src, i);
            o.result == SourceIllegal ==> first < |src| && (o.cursor == first <==> src[first] <= MAX_LEGAL)
  {
    Advances32to8(flags);
    Judges8(flags);
    CursorOfRun(Step32to8(flags), false, Illegal(flags), Refused(flags), Replacing8, src, i, room);
    var first := First(Illegal(flags), src, i);
    if first < |src| {
      RefusedInRange(flags, src[first]);
    }
  }

  lemma Behind16()
    ensures Advances(Step32to16(StrictConversion))
    ensures Full(Step32to16(StrictConversion), [0x110000], 0) == Outcome(SourceIllegal, 1, [])
  {
    var src: seq<UTF32> := [0x110000];
    StrictGoesOn16(src, 0);
    assert First(Refused(StrictConversion), src, 0) == 1;
    assert src[0..1] == src;
  }

  lemma Behind8(flags: ConversionFlags)
    ensures Advances(Step32to8(flags))
    ensures Full(Step32to8(flags), [0x110000], 0) == Outcome(SourceIllegal, 1, Units8(REPLACEMENT_CHAR))
  {
    var src: seq<UTF32> := [0x110000];
    GoesOn8(flags, src, 0);
    assert First(Refused(flags), src, 0) == 1;
    assert src[0..1] == src;
    assert Encoded(Replacing8, src) == Replacing8(src[0]) + Encoded(Replacing8, src[1..]);
  }

  /** One value above 0x10FFFF: illegal, and the cursor is behind it. */
  lemma CursorBehindIllegal(flags: ConversionFlags)
    ensures Advances(Step32to16(StrictConversion)) && Advances(Step32to8(flags))
    ensures Full(Step32to16(StrictConversion), [0x110000], 0) == Outcome(SourceIllegal, 1, [])
    ensures Full(Step32to8(flags), [0x110000], 0) == Outcome(SourceIllegal, 1, Units8(REPLACEMENT_CHAR))
  {
    Behind16();
    Behind8(flags);
  }
}
