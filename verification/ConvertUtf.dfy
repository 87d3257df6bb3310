/** convert_UTF.cc: the six converters over buffers. */
module ConvertUtf {
  import opened Utf
  import opened ConversionRuns

  datatype ConversionFlags = StrictConversion | LenientConversion

  // ------------------------------------------------- the character at a cursor

  /** A character in the source, or why there is none. */
  datatype Next = None(why: ConversionResult) | Character(ch: UTF32, length: nat)

  function Next16(flags: ConversionFlags, src: seq<UTF16>, i: nat): Next {
    if i >= |src| then None(ConversionOK)
    else if IsHigh(src[i]) then
      if i + 1 >= |src| then None(SourceExhausted)
      else if IsLow(src[i + 1]) then Character(Combine(src[i], src[i + 1]), 2)
      else if flags.StrictConversion? then None(SourceIllegal)
      else Character(src[i] as UTF32, 1)
    else if flags.StrictConversion? && IsLow(src[i]) then None(SourceIllegal)
    else Character(src[i] as UTF32, 1)
  }

  function Next8(src: seq<UTF8>, i: nat): Next {
    if i >= |src| then None(ConversionOK)
    else
      var length := Trailing(src[i]) + 1;
      if i + length > |src| then None(SourceExhausted)
      else if !Legal8(src[i..i + length]) then None(SourceIllegal)
      else Character(Decode8(src[i..i + length]), length)
  }

  // --------------------------------------------------------------- the steps

  function To8(next: Next): Step<UTF8> {
    match next
    case None(why) => Stop(why)
    case Character(ch, n) => Chunk(n, Units8(ch), false)
  }

  function To16(next: Next): Step<UTF16> {
    match next
    case None(why) => Stop(why)
    case Character(ch, n) => Chunk(n, Units16(ch), false)
  }

  function To32(next: Next): Step<UTF32> {
    match next
    case None(why) => Stop(why)
    case Character(ch, n) => Chunk(n, [ch], false)
  }

  function Step16to32(flags: ConversionFlags): (seq<UTF16>, nat) -> Step<UTF32> {
    (src: seq<UTF16>, i: nat) => To32(Next16(flags, src, i))
  }

  function Step16to8(flags: ConversionFlags): (seq<UTF16>, nat) -> Step<UTF8> {
    (src: seq<UTF16>, i: nat) => To8(Next16(flags, src, i))
  }

  function Step8to16(): (seq<UTF8>, nat) -> Step<UTF16> {
    (src: seq<UTF8>, i: nat) => To16(Next8(src, i))
  }

  function Step8to32(): (seq<UTF8>, nat) -> Step<UTF32> {
    (src: seq<UTF8>, i: nat) => To32(Next8(src, i))
  }

  /** Strict, a value above 0x10FFFF is skipped and held against the run; the loop
      goes on all the same. */
  function Unit32to16(flags: ConversionFlags, ch: UTF32): Step<UTF16> {
    if IsSurrogate(ch) then
      if flags.StrictConversion? then Stop(SourceIllegal) else Chunk(1, [0xFFFD], false)
    else if ch > MAX_LEGAL then
      if flags.StrictConversion? then Chunk(1, [], true) else Chunk(1, [0xFFFD], false)
    else Chunk(1, Units16(ch), false)
  }

  /** With either flag a value above 0x10FFFF is replaced and held against the run. */
  function Unit32to8(flags: ConversionFlags, ch: UTF32): Step<UTF8> {
    if flags.StrictConversion? && IsSurrogate(ch) then Stop(SourceIllegal)
    else if ch > MAX_LEGAL then Chunk(1, Units8(REPLACEMENT_CHAR), true)
    else Chunk(1, Units8(ch), false)
  }

  function Step32to16(flags: ConversionFlags): (seq<UTF32>, nat) -> Step<UTF16> {
    (src: seq<UTF32>, i: nat) => if i >= |src| then Stop(ConversionOK) else Unit32to16(flags, src[i])
  }

  function Step32to8(flags: ConversionFlags): (seq<UTF32>, nat) -> Step<UTF8> {
    (src: seq<UTF32>, i: nat) => if i >= |src| then Stop(ConversionOK) else Unit32to8(flags, src[i])
  }

  lemma Plain16(flags: ConversionFlags, src: seq<UTF16>, i: nat)
    requires i <= |src|
    ensures Plain(Step16to32(flags)(src, i), |src| - i, 1)
    ensures Plain(Step16to8(flags)(src, i), |src| - i, 4)
  {
  }

  lemma Plain8(src: seq<UTF8>, i: nat)
    requires i <= |src|
    ensures Plain(Step8to16()(src, i), |src| - i, 2)
    ensures Plain(Step8to32()(src, i), |src| - i, 1)
  {
  }

  lemma Proper32(flags: ConversionFlags, src: seq<UTF32>, i: nat)
    requires i <= |src|
    ensures Proper(Step32to16(flags)(src, i), |src| - i)
    ensures Proper(Step32to8(flags)(src, i), |src| - i)
  {
  }

  lemma Advances16to32(flags: ConversionFlags)
    ensures AllPlain(Step16to32(flags), 1) && Advances(Step16to32(flags))
  {
    forall src: seq<UTF16>, i: nat | i <= |src| {
      Plain16(flags, src, i);
    }
    PlainAdvances(Step16to32(flags), 1);
  }

  lemma Advances16to8(flags: ConversionFlags)
    ensures AllPlain(Step16to8(flags), 4) && Advances(Step16to8(flags))
  {
    forall src: seq<UTF16>, i: nat | i <= |src| {
      Plain16(flags, src, i);
    }
    PlainAdvances(Step16to8(flags), 4);
  }

  lemma Advances8to16()
    ensures AllPlain(Step8to16(), 2) && Advances(Step8to16())
  {
    forall src: seq<UTF8>, i: nat | i <= |src| {
      Plain8(src, i);
    }
    PlainAdvances(Step8to16(), 2);
  }

  lemma Advances8to32()
    ensures AllPlain(Step8to32(), 1) && Advances(Step8to32())
  {
    forall src: seq<UTF8>, i: nat | i <= |src| {
      Plain8(src, i);
    }
    PlainAdvances(Step8to32(), 1);
  }

  lemma Advances32to16(flags: ConversionFlags)
    ensures Advances(Step32to16(flags))
  {
    forall src: seq<UTF32>, i: nat | i <= |src| {
      Proper32(flags, src, i);
    }
  }

  lemma Advances32to8(flags: ConversionFlags)
    ensures Advances(Step32to8(flags))
  {
    forall src: seq<UTF32>, i: nat | i <= |src| {
      Proper32(flags, src, i);
    }
  }

  /** UTF-16 has no way to write a value above 0x10FFFF. */
  lemma Next16InRange(flags: ConversionFlags, src: seq<UTF16>, i: nat)
    requires Next16(flags, src, i).Character?
    ensures Next16(flags, src, i).ch <= MAX_LEGAL
  {
    if IsHigh(src[i]) && i + 1 < |src| && IsLow(src[i + 1]) {
      CombineInRange(src[i], src[i + 1]);
    } else {
      Widened(src[i]);
    }
  }

  lemma Widened(u: UTF16)
    ensures u as UTF32 <= MAX_BMP
  {
  }

  /** Any sequence of bytes the legality test passes decodes to a scalar value. */
  lemma Next8IsScalar(src: seq<UTF8>, i: nat)
    requires Next8(src, i).Character?
    ensures IsScalar(Next8(src, i).ch)
  {
    LegalDecodes(src[i..i + Trailing(src[i]) + 1]);
  }

  // ----------------------------------------------------------------- reading

  method ReadUTF16(source: seq<UTF16>, from: nat, flags: ConversionFlags)
      returns (result: ConversionResult, ch: UTF32, next: nat)
    requires from < |source|
    ensures from <= next
    ensures Next16(flags, source, from) == if result.ConversionOK? then Character(ch, next - from) else None(result)
    ensures !result.ConversionOK? ==> next == from
  {
    var src := from;
    var unit := source[src];
    src := src + 1;
    ch := unit as UTF32;
    if IsHigh(unit) {
      if src < |source| {
        var unit2 := source[src];
        if IsLow(unit2) {
          ch := Combine(unit, unit2);
          src := src + 1;
        } else if flags.StrictConversion? {
          src := src - 1;
          return SourceIllegal, ch, src;
        }
      } else {
        src := src - 1;
        return SourceExhausted, ch, src;
      }
    } else if flags.StrictConversion? {
      if IsLow(unit) {
        src := src - 1;
        return SourceIllegal, ch, src;
      }
    }
    return ConversionOK, ch, src;
  }

  /** The fall-through switch: the bytes from `from` on, shifted in one after the other. */
  function ValueAt(source: seq<UTF8>, from: nat, extra: nat): UTF32
    requires extra <= 3 && from + extra < |source|
  {
    if extra == 0 then source[from] as UTF32
    else if extra == 1 then Value2(source[from], source[from + 1])
    else if extra == 2 then Value3(source[from], source[from + 1], source[from + 2])
    else Value4(source[from], source[from + 1], source[from + 2], source[from + 3])
  }

  lemma ValueDecodes(source: seq<UTF8>, from: nat, extra: nat)
    requires extra <= 3 && from + extra < |source|
    ensures ValueAt(source, from, extra) == Decode8(source[from..from + extra + 1])
  {
  }

  method ReadUTF8(source: seq<UTF8>, from: nat) returns (result: ConversionResult, ch: UTF32, next: nat)
    requires from < |source|
    ensures from <= next
    ensures Next8(source, from) == if result.ConversionOK? then Character(ch, next - from) else None(result)
    ensures !result.ConversionOK? ==> next == from
    ensures result.ConversionOK? ==> IsScalar(ch)
  {
    var extra := Trailing(source[from]);
    if from + extra >= |source| {
      return SourceExhausted, 0, from;
    }
    var legal := IsLegalUTF8(source[from..], extra + 1);
    assert source[from..][..extra + 1] == source[from..from + extra + 1];
    if !legal {
      return SourceIllegal, 0, from;
    }
    LegalDecodes(source[from..from + extra + 1]);
    ValueDecodes(source, from, extra);
    return ConversionOK, ValueAt(source, from, extra), from + extra + 1;
  }

  // ----------------------------------------------------------------- writing

  /** The other fall-through switch, each entry followed to its end: the bytes are
      stored from the last to the first. */
  method StoreBytes(target: array<UTF8>, at: nat, length: nat, value: UTF32)
    requires 1 <= length <= 4 && at + length <= target.Length
    modifies target
    ensures forall i :: 0 <= i < length ==> target[at + i] == Bytes8(value, length)[i]
    ensures forall i :: 0 <= i < target.Length && !(at <= i < at + length) ==> target[i] == old(target[i])
  {
    var ch := value;
    if length == 4 {
      target[at + 3] := TailByte(ch);
      ch := ch >> 6;
      target[at + 2] := TailByte(ch);
      ch := ch >> 6;
      target[at + 1] := TailByte(ch);
      ch := ch >> 6;
      target[at] := HeadByte(ch, 4);
    } else if length == 3 {
      target[at + 2] := TailByte(ch);
      ch := ch >> 6;
      target[at + 1] := TailByte(ch);
      ch := ch >> 6;
      target[at] := HeadByte(ch, 3);
    } else if length == 2 {
      target[at + 1] := TailByte(ch);
      ch := ch >> 6;
      target[at] := HeadByte(ch, 2);
    } else {
      target[at] := HeadByte(ch, 1);
    }
  }

  method WriteUTF8(target: array<UTF8>, at: nat, length: nat, value: UTF32)
    requires 1 <= length <= 4 && at + length <= target.Length
    modifies target
    ensures Written(old(target[..]), target[..], at, Bytes8(value, length))
  {
    StoreBytes(target, at, length, value);
    WrittenEach(old(target[..]), target[..], at, Bytes8(value, length));
  }

  lemma WrittenEach<T>(was: seq<T>, now: seq<T>, at: nat, units: seq<T>)
    requires at + |units| <= |was| == |now|
    requires forall i :: 0 <= i < |units| ==> now[at + i] == units[i]
    requires forall i :: 0 <= i < |was| && !(at <= i < at + |units|) ==> now[i] == was[i]
    ensures Written(was, now, at, units)
  {
    assert now[at..at + |units|] == units;
  }

  /** What the UTF-32 to UTF-16 loop does with one unit, having seen room for one. */
  method WriteUTF16(target: array<UTF16>, at: nat, end: nat, ch: UTF32, flags: ConversionFlags)
      returns (stopped: bool, result: ConversionResult, after: nat)
    requires at < end <= target.Length
    modifies target
    ensures Handled(Unit32to16(flags, ch), old(target[..]), target[..], at, end, stopped, result, after)
  {
    stopped, result, after := false, ConversionOK, at + 1;
    if ch <= MAX_BMP {
      if IsSurrogate(ch) {
        if flags.StrictConversion? {
          return true, SourceIllegal, at;
        } else {
          Put(target, at, 0xFFFD);
        }
      } else {
        Put(target, at, (ch & 0xFFFF) as UTF16);
      }
    } else if ch > MAX_LEGAL {
      if flags.StrictConversion? {
        result, after := SourceIllegal, at;
        WrittenNone(target[..], at);
      } else {
        Put(target, at, 0xFFFD);
      }
    } else {
      if at + 1 >= end {
        return true, TargetExhausted, at;
      }
      PutTwo(target, at, HighHalf(ch), LowHalf(ch));
      after := at + 2;
    }
  }

  lemma WrittenNone<T>(was: seq<T>, at: nat)
    requires at <= |was|
    ensures Written(was, was, at, [])
  {
  }

  // -------------------------------------------------------------- the converters

  method ConvertUTF16toUTF32(source: seq<UTF16>, from: nat, target: array<UTF32>, start: nat, end: nat,
                             flags: ConversionFlags)
      returns (result: ConversionResult, sourceStart: nat, targetStart: nat)
    requires from <= |source| && start <= end <= target.Length
    modifies target
    ensures Call(Step16to32(flags), false, source, from, old(target[..]), start, end)
              .Answered(target[..], result, sourceStart, targetStart)
  {
    Advances16to32(flags);
    ghost var call := Call(Step16to32(flags), false, source, from, target[..], start, end);
    call.Start();
    sourceStart, targetStart := from, start;
    while sourceStart < |source|
      invariant call.Underway(target[..], sourceStart, targetStart, false)
    {
      ghost var done := target[..];
      var ch: UTF32, next: nat;
      result, ch, next := ReadUTF16(source, sourceStart, flags);
      if result != ConversionOK {
        call.Stops(done, sourceStart, targetStart, false, result);
        return;
      }
      if targetStart >= end {
        call.Exhausts(done, sourceStart, targetStart, false);
        return TargetExhausted, sourceStart, targetStart;
      }
      Put(target, targetStart, ch);
      call.Next(done, target[..], sourceStart, targetStart, false, next, [ch], targetStart + 1, false);
      sourceStart, targetStart := next, targetStart + 1;
    }
    call.Ends(target[..], sourceStart, targetStart, false);
    result := ConversionOK;
  }

  method ConvertUTF16toUTF8(source: seq<UTF16>, from: nat, target: array<UTF8>, start: nat, end: nat,
                            flags: ConversionFlags)
      returns (result: ConversionResult, sourceStart: nat, targetStart: nat)
    requires from <= |source| && start <= end <= target.Length
    modifies target
    ensures Call(Step16to8(flags), false, source, from, old(target[..]), start, end)
              .Answered(target[..], result, sourceStart, targetStart)
  {
    Advances16to8(flags);
    ghost var call := Call(Step16to8(flags), false, source, from, target[..], start, end);
    call.Start();
    sourceStart, targetStart := from, start;
    while sourceStart < |source|
      invariant call.Underway(target[..], sourceStart, targetStart, false)
    {
      ghost var done := target[..];
      var ch: UTF32, next: nat;
      result, ch, next := ReadUTF16(source, sourceStart, flags);
      if result != ConversionOK {
        call.Stops(done, sourceStart, targetStart, false, result);
        return;
      }
      Next16InRange(flags, source, sourceStart);
      var bytesToWrite: nat;
      if ch < 0x80 {
        bytesToWrite := 1;
      } else if ch < 0x800 {
        bytesToWrite := 2;
      } else if ch < 0x10000 {
        bytesToWrite := 3;
      } else if ch < 0x110000 {
        bytesToWrite := 4;
      } else {
        assert false;
      }
      if targetStart + bytesToWrite > end {
        call.Exhausts(done, sourceStart, targetStart, false);
        return TargetExhausted, sourceStart, targetStart;
      }
      WriteUTF8(target, targetStart, bytesToWrite, ch);
      call.Next(done, target[..], sourceStart, targetStart, false, next, Units8(ch), targetStart + bytesToWrite, false);
      sourceStart, targetStart := next, targetStart + bytesToWrite;
    }
    call.Ends(target[..], sourceStart, targetStart, false);
    result := ConversionOK;
  }

  /** The flag makes no difference: the branches that look at it are never taken. */
  method ConvertUTF8toUTF16(source: seq<UTF8>, from: nat, target: array<UTF16>, start: nat, end: nat,
                            flags: ConversionFlags)
      returns (result: ConversionResult, sourceStart: nat, targetStart: nat)
    requires from <= |source| && start <= end <= target.Length
    modifies target
    ensures Call(Step8to16(), false, source, from, old(target[..]), start, end)
              .Answered(target[..], result, sourceStart, targetStart)
  {
    Advances8to16();
    ghost var call := Call(Step8to16(), false, source, from, target[..], start, end);
    call.Start();
    sourceStart, targetStart := from, start;
    while sourceStart < |source|
      invariant call.Underway(target[..], sourceStart, targetStart, false)
    {
      ghost var done := target[..];
      var ch: UTF32, next: nat;
      result, ch, next := ReadUTF8(source, sourceStart);
      if result != ConversionOK {
        call.Stops(done, sourceStart, targetStart, false, result);
        return;
      }
      if targetStart >= end {
        call.Exhausts(done, sourceStart, targetStart, false);
        return TargetExhausted, sourceStart, targetStart;
      }
      ghost var units := Units16(ch);
      var after: nat;
      if ch <= MAX_BMP {
        if IsSurrogate(ch) {
          assert false;
        }
        Put(target, targetStart, (ch & 0xFFFF) as UTF16);
        after := targetStart + 1;
      } else if ch > MAX_LEGAL {
        assert false;
      } else {
        if targetStart + 1 >= end {
          call.Exhausts(done, sourceStart, targetStart, false);
          return TargetExhausted, sourceStart, targetStart;
        }
        PutTwo(target, targetStart, HighHalf(ch), LowHalf(ch));
        after := targetStart + 2;
      }
      call.Next(done, target[..], sourceStart, targetStart, false, next, units, after, false);
      sourceStart, targetStart := next, after;
    }
    call.Ends(target[..], sourceStart, targetStart, false);
    result := ConversionOK;
  }

  /** Here too the flag makes no difference. */
  method ConvertUTF8toUTF32(source: seq<UTF8>, from: nat, target: array<UTF32>, start: nat, end: nat,
                            flags: ConversionFlags)
      returns (result: ConversionResult, sourceStart: nat, targetStart: nat)
    requires from <= |source| && start <= end <= target.Length
    modifies target
    ensures Call(Step8to32(), false, source, from, old(target[..]), start, end)
              .Answered(target[..], result, sourceStart, targetStart)
  {
    Advances8to32();
    ghost var call := Call(Step8to32(), false, source, from, target[..], start, end);
    call.Start();
    sourceStart, targetStart := from, start;
    while sourceStart < |source|
      invariant call.Underway(target[..], sourceStart, targetStart, false)
    {
      ghost var done := target[..];
      var ch: UTF32, next: nat;
      result, ch, next := ReadUTF8(source, sourceStart);
      if result != ConversionOK {
        call.Stops(done, sourceStart, targetStart, false, result);
        return;
      }
      if targetStart >= end {
        call.Exhausts(done, sourceStart, targetStart, false);
        return TargetExhausted, sourceStart, targetStart;
      }
      if ch <= MAX_LEGAL {
        if IsSurrogate(ch) {
          assert false;
        }
        Put(target, targetStart, ch);
        call.Next(done, target[..], sourceStart, targetStart, false, next, [ch], targetStart + 1, false);
        sourceStart, targetStart := next, targetStart + 1;
      } else {
        assert false;
      }
    }
    call.Ends(target[..], sourceStart, targetStart, false);
    result := ConversionOK;
  }

  /** One turn of the loop, for the call it is part of, whose result has come to `was`. */
  method Turn16(ghost call: Call<UTF32, UTF16>, was: ConversionResult, source: seq<UTF32>, s: nat,
                target: array<UTF16>, at: nat, end: nat, flags: ConversionFlags)
      returns (stopped: bool, result: ConversionResult, after: nat)
    requires call.step == Step32to16(flags) && call.eager == true && call.src == source && call.end == end
    requires s < |source| && end <= target.Length && at < end
    requires call.Underway(target[..], s, at, was == SourceIllegal)
    modifies target
    ensures if stopped then call.Answered(target[..], result, s, at)
            else
              && (result == SourceIllegal || result == was)
              && call.Underway(target[..], s + 1, after, result == SourceIllegal)
  {
    ghost var done := target[..];
    var unit := source[s];
    stopped, result, after := WriteUTF16(target, at, end, unit, flags);
    call.Turn(Unit32to16(flags, unit), done, target[..], s, at, was == SourceIllegal, stopped, result, after);
    if !stopped && result != SourceIllegal {
      result := was;
    }
  }

  method ConvertUTF32toUTF16(source: seq<UTF32>, from: nat, target: array<UTF16>, start: nat, end: nat,
                             flags: ConversionFlags)
      returns (result: ConversionResult, sourceStart: nat, targetStart: nat)
    requires from <= |source| && start <= end <= target.Length
    modifies target
    ensures Call(Step32to16(flags), true, source, from, old(target[..]), start, end)
              .Answered(target[..], result, sourceStart, targetStart)
  {
    Advances32to16(flags);
    ghost var call := Call(Step32to16(flags), true, source, from, target[..], start, end);
    call.Start();
    sourceStart, targetStart := from, start;
    result := ConversionOK;
    while sourceStart < |source|
      invariant result == ConversionOK || result == SourceIllegal
      invariant call.Underway(target[..], sourceStart, targetStart, result == SourceIllegal)
    {
      if targetStart >= end {
        call.Exhausts(target[..], sourceStart, targetStart, result == SourceIllegal);
        return TargetExhausted, sourceStart, targetStart;
      }
      var stopped: bool, after: nat;
      stopped, result, after := Turn16(call, result, source, sourceStart, target, targetStart, end, flags);
      if stopped {
        return;
      }
      sourceStart, targetStart := sourceStart + 1, after;
    }
    call.Ends(target[..], sourceStart, targetStart, result == SourceIllegal);
  }

  /** How many bytes a UTF-32 unit takes, a value above 0x10FFFF giving way to the
      replacement character. */
  method Measure(unit: UTF32) returns (ch: UTF32, bytesToWrite: nat, illegal: bool)
    ensures illegal <==> unit > MAX_LEGAL
    ensures ch == if illegal then REPLACEMENT_CHAR else unit
    ensures bytesToWrite == Length8(ch)
  {
    ch, illegal := unit, false;
    if ch < 0x80 {
      bytesToWrite := 1;
    } else if ch < 0x800 {
      bytesToWrite := 2;
    } else if ch < 0x10000 {
      bytesToWrite := 3;
    } else if ch <= MAX_LEGAL {
      bytesToWrite := 4;
    } else {
      bytesToWrite := 3;
      ch := REPLACEMENT_CHAR;
      illegal := true;
    }
  }

  /** What the UTF-32 to UTF-8 loop does with one unit. */
  method WriteUnit8(target: array<UTF8>, at: nat, end: nat, unit: UTF32, flags: ConversionFlags)
      returns (stopped: bool, result: ConversionResult, after: nat)
    requires at <= end <= target.Length
    modifies target
    ensures Handled(Unit32to8(flags, unit), old(target[..]), target[..], at, end, stopped, result, after)
  {
    stopped, result, after := false, ConversionOK, at;
    if flags.StrictConversion? {
      if IsSurrogate(unit) {
        return true, SourceIllegal, at;
      }
    }
    var ch: UTF32, bytesToWrite: nat, illegal: bool;
    ch, bytesToWrite, illegal := Measure(unit);
    if illegal {
      result := SourceIllegal;
    }
    if at + bytesToWrite > end {
      return true, TargetExhausted, at;
    }
    WriteUTF8(target, at, bytesToWrite, ch);
    after := at + bytesToWrite;
  }

  /** One turn of the loop, for the call it is part of, whose result has come to `was`. */
  method Turn8(ghost call: Call<UTF32, UTF8>, was: ConversionResult, source: seq<UTF32>, s: nat,
               target: array<UTF8>, at: nat, end: nat, flags: ConversionFlags)
      returns (stopped: bool, result: ConversionResult, after: nat)
    requires call.step == Step32to8(flags) && call.eager == false && call.src == source && call.end == end
    requires s < |source| && end <= target.Length
    requires call.Underway(target[..], s, at, was == SourceIllegal)
    modifies target
    ensures if stopped then call.Answered(target[..], result, s, at)
            else
              && (result == SourceIllegal || result == was)
              && call.Underway(target[..], s + 1, after, result == SourceIllegal)
  {
    ghost var done := target[..];
    var unit := source[s];
    stopped, result, after := WriteUnit8(target, at, end, unit, flags);
    call.Turn(Unit32to8(flags, unit), done, target[..], s, at, was == SourceIllegal, stopped, result, after);
    if !stopped && result != SourceIllegal {
      result := was;
    }
  }

  method ConvertUTF32toUTF8(source: seq<UTF32>, from: nat, target: array<UTF8>, start: nat, end: nat,
                            flags: ConversionFlags)
      returns (result: ConversionResult, sourceStart: nat, targetStart: nat)
    requires from <= |source| && start <= end <= target.Length
    modifies target
    ensures Call(Step32to8(flags), false, source, from, old(target[..]), start, end)
              .Answered(target[..], result, sourceStart, targetStart)
  {
    Advances32to8(flags);
    ghost var call := Call(Step32to8(flags), false, source, from, target[..], start, end);
    call.Start();
    sourceStart, targetStart := from, start;
    result := ConversionOK;
    while sourceStart < |source|
      invariant result == ConversionOK || result == SourceIllegal
      invariant call.Underway(target[..], sourceStart, targetStart, result == SourceIllegal)
    {
      var stopped: bool, after: nat;
      stopped, result, after := Turn8(call, result, source, sourceStart, target, targetStart, end, flags);
      if stopped {
        return;
      }
      sourceStart, targetStart := sourceStart + 1, after;
    }
    call.Ends(target[..], sourceStart, targetStart, result == SourceIllegal);
  }
}
