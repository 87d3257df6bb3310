/** The callers' loop: whoever is told that the target is exhausted goes on from where the
    source cursor was left, with another buffer. Whatever the sizes of the buffers, what
    has come out when the source is dealt with is what one large buffer would have got;
    and one buffer more than there are units, each with room for a character, will do.
    The answer is that of one call too, but for the two converters from UTF-32, which may
    have forgotten an illegal value. */
module UtfPieces {
  import opened Utf
  import opened ConversionRuns
  import opened ConvertUtf
  import opened UtfRoundTrip
  import opened UtfInterrupted

  method Pieces16to8(source: seq<UTF16>, rooms: seq<nat>, flags: ConversionFlags)
      returns (result: ConversionResult, sourceStart: nat, written: seq<UTF8>)
    requires rooms != []
    ensures Loop(Step16to8(flags), false, source, rooms).Answered(result, sourceStart, written)
    ensures result != TargetExhausted || Ample(rooms, 4, |source|) ==>
              Outcome(result, sourceStart, written) == Full(Step16to8(flags), source, 0)
  {
    Advances16to8(flags);
    AnyBuffers(Step16to8(flags), 4, source, rooms);
    ghost var loop := Loop(Step16to8(flags), false, source, rooms);
    loop.Start();
    result, sourceStart, written := TargetExhausted, 0, [];
    for k := 0 to |rooms|
      invariant loop.Underway(k, result, sourceStart, written)
    {
      var target := new UTF8[rooms[k]];
      ghost var call := Call(Step16to8(flags), false, source, sourceStart, target[..], 0, target.Length);
      ghost var before, cursor, units := result, sourceStart, written;
      var targetStart: nat;
      result, sourceStart, targetStart := ConvertUTF16toUTF8(source, sourceStart, target, 0, target.Length, flags);
      written := written + target[0..targetStart];
      loop.Next(k, before, cursor, units, call, target[..], result, sourceStart, targetStart);
      if result != TargetExhausted {
        return;
      }
    }
  }

  method Pieces16to32(source: seq<UTF16>, rooms: seq<nat>, flags: ConversionFlags)
      returns (result: ConversionResult, sourceStart: nat, written: seq<UTF32>)
    requires rooms != []
    ensures Loop(Step16to32(flags), false, source, rooms).Answered(result, sourceStart, written)
    ensures result != TargetExhausted || Ample(rooms, 1, |source|) ==>
              Outcome(result, sourceStart, written) == Full(Step16to32(flags), source, 0)
  {
    Advances16to32(flags);
    AnyBuffers(Step16to32(flags), 1, source, rooms);
    ghost var loop := Loop(Step16to32(flags), false, source, rooms);
    loop.Start();
    result, sourceStart, written := TargetExhausted, 0, [];
    for k := 0 to |rooms|
      invariant loop.Underway(k, result, sourceStart, written)
    {
      var target := new UTF32[rooms[k]];
      ghost var call := Call(Step16to32(flags), false, source, sourceStart, target[..], 0, target.Length);
      ghost var before, cursor, units := result, sourceStart, written;
      var targetStart: nat;
      result, sourceStart, targetStart := ConvertUTF16toUTF32(source, sourceStart, target, 0, target.Length, flags);
      written := written + target[0..targetStart];
      loop.Next(k, before, cursor, units, call, target[..], result, sourceStart, targetStart);
      if result != TargetExhausted {
        return;
      }
    }
  }

  method Pieces8to16(source: seq<UTF8>, rooms: seq<nat>, flags: ConversionFlags)
      returns (result: ConversionResult, sourceStart: nat, written: seq<UTF16>)
    requires rooms != []
    ensures Loop(Step8to16(), false, source, rooms).Answered(result, sourceStart, written)
    ensures result != TargetExhausted || Ample(rooms, 2, |source|) ==>
              Outcome(result, sourceStart, written) == Full(Step8to16(), source, 0)
  {
    Advances8to16();
    AnyBuffers(Step8to16(), 2, source, rooms);
    ghost var loop := Loop(Step8to16(), false, source, rooms);
    loop.Start();
    result, sourceStart, written := TargetExhausted, 0, [];
    for k := 0 to |rooms|
      invariant loop.Underway(k, result, sourceStart, written)
    {
      var target := new UTF16[rooms[k]];
      ghost var call := Call(Step8to16(), false, source, sourceStart, target[..], 0, target.Length);
      ghost var before, cursor, units := result, sourceStart, written;
      var targetStart: nat;
      result, sourceStart, targetStart := ConvertUTF8toUTF16(source, sourceStart, target, 0, target.Length, flags);
      written := written + target[0..targetStart];
      loop.Next(k, before, cursor, units, call, target[..], result, sourceStart, targetStart);
      if result != TargetExhausted {
        return;
      }
    }
  }

  method Pieces8to32(source: seq<UTF8>, rooms: seq<nat>, flags: ConversionFlags)
      returns (result: ConversionResult, sourceStart: nat, written: seq<UTF32>)
    requires rooms != []
    ensures Loop(Step8to32(), false, source, rooms).Answered(result, sourceStart, written)
    ensures result != TargetExhausted || Ample(rooms, 1, |source|) ==>
              Outcome(result, sourceStart, written) == Full(Step8to32(), source, 0)
  {
    Advances8to32();
    AnyBuffers(Step8to32(), 1, source, rooms);
    ghost var loop := Loop(Step8to32(), false, source, rooms);
    loop.Start();
    result, sourceStart, written := TargetExhausted, 0, [];
    for k := 0 to |rooms|
      invariant loop.Underway(k, result, sourceStart, written)
    {
      var target := new UTF32[rooms[k]];
      ghost var call := Call(Step8to32(), false, source, sourceStart, target[..], 0, target.Length);
      ghost var before, cursor, units := result, sourceStart, written;
      var targetStart: nat;
      result, sourceStart, targetStart := ConvertUTF8toUTF32(source, sourceStart, target, 0, target.Length, flags);
      written := written + target[0..targetStart];
      loop.Next(k, before, cursor, units, call, target[..], result, sourceStart, targetStart);
      if result != TargetExhausted {
        return;
      }
    }
  }

  method Pieces32to16(source: seq<UTF32>, rooms: seq<nat>, flags: ConversionFlags)
      returns (result: ConversionResult, sourceStart: nat, written: seq<UTF16>)
    requires rooms != []
    ensures Loop(Step32to16(flags), true, source, rooms).Answered(result, sourceStart, written)
    ensures result != TargetExhausted || Ample(rooms, 2, |source|) ==>
              Ended(Step32to16(flags), true, Illegal16(flags), source, rooms, Outcome(result, sourceStart, written))
  {
    Advances32to16(flags);
    AnyBuffers32to16(flags, source, rooms);
    ghost var loop := Loop(Step32to16(flags), true, source, rooms);
    loop.Start();
    result, sourceStart, written := TargetExhausted, 0, [];
    for k := 0 to |rooms|
      invariant loop.Underway(k, result, sourceStart, written)
    {
      var target := new UTF16[rooms[k]];
      ghost var call := Call(Step32to16(flags), true, source, sourceStart, target[..], 0, target.Length);
      ghost var before, cursor, units := result, sourceStart, written;
      var targetStart: nat;
      result, sourceStart, targetStart := ConvertUTF32toUTF16(source, sourceStart, target, 0, target.Length, flags);
      written := written + target[0..targetStart];
      loop.Next(k, before, cursor, units, call, target[..], result, sourceStart, targetStart);
      if result != TargetExhausted {
        return;
      }
    }
  }

  method Pieces32to8(source: seq<UTF32>, rooms: seq<nat>, flags: ConversionFlags)
      returns (result: ConversionResult, sourceStart: nat, written: seq<UTF8>)
    requires rooms != []
    ensures Loop(Step32to8(flags), false, source, rooms).Answered(result, sourceStart, written)
    ensures result != TargetExhausted || Ample(rooms, 4, |source|) ==>
              Ended(Step32to8(flags), false, Illegal(flags), source, rooms, Outcome(result, sourceStart, written))
  {
    Advances32to8(flags);
    AnyBuffers32to8(flags, source, rooms);
    ghost var loop := Loop(Step32to8(flags), false, source, rooms);
    loop.Start();
    result, sourceStart, written := TargetExhausted, 0, [];
    for k := 0 to |rooms|
      invariant loop.Underway(k, result, sourceStart, written)
    {
      var target := new UTF8[rooms[k]];
      ghost var call := Call(Step32to8(flags), false, source, sourceStart, target[..], 0, target.Length);
      ghost var before, cursor, units := result, sourceStart, written;
      var targetStart: nat;
      result, sourceStart, targetStart := ConvertUTF32toUTF8(source, sourceStart, target, 0, target.Length, flags);
      written := written + target[0..targetStart];
      loop.Next(k, before, cursor, units, call, target[..], result, sourceStart, targetStart);
      if result != TargetExhausted {
        return;
      }
    }
  }
}
