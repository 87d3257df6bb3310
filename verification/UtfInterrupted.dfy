/** Calls of the two converters from UTF-32 that run out of room: where they stop, which
    problem they indicate, and what becomes of an illegal value when they are called again. */
module UtfInterrupted {
  import opened Utf
  import opened ConversionRuns
  import opened ConvertUtf
  import opened UtfRoundTrip

  /** The room without which the unit is left for the next call. An eager converter wants
      room for something in any case; a unit that is refused takes none. */
  function Need<C, T>(eager: bool, refused: C -> bool, written: C -> seq<T>, unit: C): nat {
    var n := if refused(unit) then 0 else |written(unit)|;
    if eager && n == 0 then 1 else n
  }

  /** The first unit that finds no room, if the run comes to it, or the end. */
  function FirstUnfit<C, T>(eager: bool, refused: C -> bool, written: C -> seq<T>, src: seq<C>, i: nat,
                            room: nat): (unfit: nat)
    requires i <= |src|
    ensures i <= unfit <= |src|
    decreases |src| - i
  {
    if i == |src| || room < Need(eager, refused, written, src[i]) then i
    else if refused(src[i]) then |src|
    else FirstUnfit(eager, refused, written, src, i + 1, room - |written(src[i])|)
  }

  lemma Passes<C(!new), T>(step: (seq<C>, nat) -> Step<T>, eager: bool, illegal: C -> bool, refused: C -> bool,
                           written: C -> seq<T>, src: seq<C>, i: nat, room: nat)
    requires Advances(step) && Judges(step, illegal, refused, written) && i < |src|
    requires Need(eager, refused, written, src[i]) <= room && !refused(src[i])
    ensures var w, bad := written(src[i]), illegal(src[i]);
            && Run(step, eager, src, i, room) == Prefixed(w, bad, Run(step, eager, src, i + 1, room - |w|))
            && Full(step, src, i) == Prefixed(w, bad, Full(step, src, i + 1))
  {
    assert JudgesAt(step, illegal, refused, written, src, i);
  }

  lemma Stays<C(!new), T>(step: (seq<C>, nat) -> Step<T>, eager: bool, illegal: C -> bool, refused: C -> bool,
                          written: C -> seq<T>, src: seq<C>, i: nat, room: nat)
    requires Advances(step) && Judges(step, illegal, refused, written) && i <= |src|
    requires i < |src| ==> room < Need(eager, refused, written, src[i]) || refused(src[i])
    ensures Run(step, eager, src, i, room) ==
            if i < |src| && room < Need(eager, refused, written, src[i]) then Outcome(TargetExhausted, i, [])
            else Full(step, src, i)
  {
    assert JudgesAt(step, illegal, refused, written, src, i);
  }

  /** A call stops at the first unit that finds no room, with all before it written; if
      there is none, it is as good as a call without a limit. */
  lemma {:induction false} RunOutcome<C(!new), T>(step: (seq<C>, nat) -> Step<T>, eager: bool, illegal: C -> bool,
                                                 refused: C -> bool, written: C -> seq<T>,
                                                 src: seq<C>, i: nat, room: nat)
    requires Advances(step) && Judges(step, illegal, refused, written) && i <= |src|
    ensures var unfit := FirstUnfit(eager, refused, written, src, i, room);
            Run(step, eager, src, i, room) ==
            if unfit < |src| then Outcome(TargetExhausted, unfit, Encoded(written, src[i..unfit]))
            else Full(step, src, i)
    decreases |src| - i
  {
    if i < |src| && Need(eager, refused, written, src[i]) <= room && !refused(src[i]) {
      Passes(step, eager, illegal, refused, written, src, i, room);
      RunOutcome(step, eager, illegal, refused, written, src, i + 1, room - |written(src[i])|);
      var unfit := FirstUnfit(eager, refused, written, src, i, room);
      assert src[i..unfit][1..] == src[i + 1..unfit];
    } else {
      Stays(step, eager, illegal, refused, written, src, i, room);
    }
  }

  /** Which of the two problems is met first: an illegal unit, or one without room. */
  function FirstProblem(first: nat, unfit: nat, end: nat): ConversionResult {
    if first < unfit then SourceIllegal else if unfit < end then TargetExhausted else ConversionOK
  }

  /** The first problem is the one indicated, as is promised, exactly if no illegal unit
      has been passed by when the room runs out. */
  lemma FirstProblemIndicated<C(!new), T>(step: (seq<C>, nat) -> Step<T>, eager: bool, illegal: C -> bool,
                                          refused: C -> bool, written: C -> seq<T>, src: seq<C>, i: nat, room: nat)
    requires Advances(step) && Judges(step, illegal, refused, written) && i <= |src|
    ensures var first, unfit := First(illegal, src, i), FirstUnfit(eager, refused, written, src, i, room);
            Run(step, eager, src, i, room).result == FirstProblem(first, unfit, |src|) <==> !(first < unfit < |src|)
  {
    RunOutcome(step, eager, illegal, refused, written, src, i, room);
    GoesOn(step, illegal, refused, written, src, i);
  }

  lemma {:induction false} FirstLater<C>(like: C -> bool, src: seq<C>, i: nat, j: nat)
    requires i <= j <= |src|
    ensures j <= First(like, src, i) ==> First(like, src, j) == First(like, src, i)
    decreases j - i
  {
    if i < j && !like(src[i]) {
      FirstLater(like, src, i + 1, j);
    }
  }

  lemma AnswerIffLegal<C(!new), T>(step: (seq<C>, nat) -> Step<T>, illegal: C -> bool, refused: C -> bool,
                                   written: C -> seq<T>, src: seq<C>, i: nat, j: nat)
    requires Advances(step) && Judges(step, illegal, refused, written) && i <= j <= |src|
    ensures var full, rest := Full(step, src, i).result, Full(step, src, j).result;
            && (full == if First(illegal, src, i) == |src| then ConversionOK else SourceIllegal)
            && (rest == if First(illegal, src, j) == |src| then ConversionOK else SourceIllegal)
            && (full == rest <==> rest != ConversionOK || j <= First(illegal, src, i))
  {
    GoesOn(step, illegal, refused, written, src, i);
    GoesOn(step, illegal, refused, written, src, j);
    FirstLater(illegal, src, i, j);
  }

  /** The answer for what is left is the answer for all of it, unless only the part passed
      by was illegal. */
  lemma ExhaustedRest<C(!new), T>(step: (seq<C>, nat) -> Step<T>, eager: bool, illegal: C -> bool, refused: C -> bool,
                                  written: C -> seq<T>, src: seq<C>, i: nat, room: nat)
    requires Advances(step) && Judges(step, illegal, refused, written) && i <= |src|
    requires Run(step, eager, src, i, room).result == TargetExhausted
    ensures var o := Run(step, eager, src, i, room);
            && i <= o.cursor <= |src|
            && var rest, full := Full(step, src, o.cursor), Full(step, src, i);
               && full.units == o.units + rest.units && full.cursor == rest.cursor
               && (full.result == rest.result <==>
                   rest.result != ConversionOK || o.cursor <= First(illegal, src, i))
  {
    ExhaustedUnits(step, eager, src, i, room);
    AnswerIffLegal(step, illegal, refused, written, src, i, Run(step, eager, src, i, room).cursor);
  }

  /** A loop that ends with anything but an exhausted target has written and consumed what
      one call would; its answer is that call's, unless it is conversionOK and the illegal
      value was passed by in a call before the last. */
  lemma {:induction false} RefillForgets<C(!new), T>(step: (seq<C>, nat) -> Step<T>, eager: bool, illegal: C -> bool,
                                                    refused: C -> bool, written: C -> seq<T>,
                                                    src: seq<C>, i: nat, rooms: seq<nat>)
    requires Advances(step) && Judges(step, illegal, refused, written) && i <= |src| && rooms != []
    requires Refill(step, eager, src, i, rooms).result != TargetExhausted
    ensures var r, full := Refill(step, eager, src, i, rooms), Full(step, src, i);
            && r.units == full.units && r.cursor == full.cursor
            && (r.result == full.result <==>
                r.result != ConversionOK || LastStart(step, eager, src, i, rooms) <= First(illegal, src, i))
    decreases |rooms|
  {
    var o := Run(step, eager, src, i, rooms[0]);
    if o.result == TargetExhausted {
      ExhaustedRest(step, eager, illegal, refused, written, src, i, rooms[0]);
      RefillForgets(step, eager, illegal, refused, written, src, o.cursor, rooms[1..]);
      AnswerIffLegal(step, illegal, refused, written, src, i, o.cursor);
      AnswerIffLegal(step, illegal, refused, written, src, i, LastStart(step, eager, src, i, rooms));
    } else {
      RunOutcome(step, eager, illegal, refused, written, src, i, rooms[0]);
    }
  }

  /** Buffers with room for any one unit finish the job. */
  lemma {:induction false} RefillEnds<C(!new), T>(step: (seq<C>, nat) -> Step<T>, eager: bool, illegal: C -> bool,
                                                 refused: C -> bool, written: C -> seq<T>, most: nat,
                                                 src: seq<C>, i: nat, rooms: seq<nat>)
    requires Advances(step) && Judges(step, illegal, refused, written) && i <= |src|
    requires Ample(rooms, most, |src| - i) && forall u :: Need(eager, refused, written, u) <= most
    ensures Refill(step, eager, src, i, rooms).result != TargetExhausted
    decreases |rooms|
  {
    RunOutcome(step, eager, illegal, refused, written, src, i, rooms[0]);
    var o := Run(step, eager, src, i, rooms[0]);
    FullEnds(step, src, i);
    if o.result == TargetExhausted {
      assert Need(eager, refused, written, src[i]) <= rooms[0];
      RefillEnds(step, eager, illegal, refused, written, most, src, o.cursor, rooms[1..]);
    }
  }

  // ----------------------------------------------------------- the two converters

  function Unfit16(flags: ConversionFlags, src: seq<UTF32>, i: nat, room: nat): nat
    requires i <= |src|
  {
    FirstUnfit(true, Refused(flags), Writing16(flags), src, i, room)
  }

  function Unfit8(flags: ConversionFlags, src: seq<UTF32>, i: nat, room: nat): nat
    requires i <= |src|
  {
    FirstUnfit(false, Refused(flags), Replacing8, src, i, room)
  }

  lemma FirstProblem16(flags: ConversionFlags, src: seq<UTF32>, i: nat, room: nat)
    requires i <= |src|
    ensures Advances(Step32to16(flags))
    ensures var first, unfit := First(Illegal16(flags), src, i), Unfit16(flags, src, i, room);
            Run(Step32to16(flags), true, src, i, room).result == FirstProblem(first, unfit, |src|) <==>
            !(first < unfit < |src|)
  {
    Advances32to16(flags);
    Judges16(flags);
    FirstProblemIndicated(Step32to16(flags), true, Illegal16(flags), Refused(flags), Writing16(flags), src, i, room);
  }

  lemma FirstProblem8(flags: ConversionFlags, src: seq<UTF32>, i: nat, room: nat)
    requires i <= |src|
    ensures Advances(Step32to8(flags))
    ensures var first, unfit := First(Illegal(flags), src, i), Unfit8(flags, src, i, room);
            Run(Step32to8(flags), false, src, i, room).result == FirstProblem(first, unfit, |src|) <==>
            !(first < unfit < |src|)
  {
    Advances32to8(flags);
    Judges8(flags);
    FirstProblemIndicated(Step32to8(flags), false, Illegal(flags), Refused(flags), Replacing8, src, i, room);
  }

  lemma Exhausted16(flags: ConversionFlags, src: seq<UTF32>, i: nat, room: nat)
    requires i <= |src|
    ensures Advances(Step32to16(flags))
    ensures var o := Run(Step32to16(flags), true, src, i, room);
            o.result == TargetExhausted ==>
              && i <= o.cursor <= |src|
              && var rest, full := Full(Step32to16(flags), src, o.cursor), Full(Step32to16(flags), src, i);
                 && full.units == o.units + rest.units && full.cursor == rest.cursor
                 && (full.result == rest.result <==>
                     rest.result != ConversionOK || o.cursor <= First(Illegal16(flags), src, i))
  {
    Advances32to16(flags);
    Judges16(flags);
    if Run(Step32to16(flags), true, src, i, room).result == TargetExhausted {
      ExhaustedRest(Step32to16(flags), true, Illegal16(flags), Refused(flags), Writing16(flags), src, i, room);
    }
  }

  lemma Exhausted8(flags: ConversionFlags, src: seq<UTF32>, i: nat, room: nat)
    requires i <= |src|
    ensures Advances(Step32to8(flags))
    ensures var o := Run(Step32to8(flags), false, src, i, room);
            o.result == TargetExhausted ==>
              && i <= o.cursor <= |src|
              && var rest, full := Full(Step32to8(flags), src, o.cursor), Full(Step32to8(flags), src, i);
                 && full.units == o.units + rest.units && full.cursor == rest.cursor
                 && (full.result == rest.result <==>
                     rest.result != ConversionOK || o.cursor <= First(Illegal(flags), src, i))
  {
    Advances32to8(flags);
    Judges8(flags);
    if Run(Step32to8(flags), false, src, i, room).result == TargetExhausted {
      ExhaustedRest(Step32to8(flags), false, Illegal(flags), Refused(flags), Replacing8, src, i, room);
    }
  }

  /** The loop from UTF-32 has come to the end of what can be converted: the output and the
      source cursor of one call, and its answer unless an illegal value was forgotten. */
  ghost predicate Ended<T>(step: (seq<UTF32>, nat) -> Step<T>, eager: bool, illegal: UTF32 -> bool, src: seq<UTF32>,
                           rooms: seq<nat>, r: Outcome<T>)
    requires Advances(step) && rooms != []
  {
    var full := Full(step, src, 0);
    && r.result != TargetExhausted && r.units == full.units && r.cursor == full.cursor
    && (r.result == full.result <==>
        r.result != ConversionOK || LastStart(step, eager, src, 0, rooms) <= First(illegal, src, 0))
  }

  lemma AnyBuffers32to16(flags: ConversionFlags, src: seq<UTF32>, rooms: seq<nat>)
    requires rooms != []
    ensures Advances(Step32to16(flags))
    ensures var r := Refill(Step32to16(flags), true, src, 0, rooms);
            r.result != TargetExhausted || Ample(rooms, 2, |src|) ==>
              Ended(Step32to16(flags), true, Illegal16(flags), src, rooms, r)
  {
    Advances32to16(flags);
    Judges16(flags);
    if Ample(rooms, 2, |src|) {
      RefillEnds(Step32to16(flags), true, Illegal16(flags), Refused(flags), Writing16(flags), 2, src, 0, rooms);
    }
    if Refill(Step32to16(flags), true, src, 0, rooms).result != TargetExhausted {
      RefillForgets(Step32to16(flags), true, Illegal16(flags), Refused(flags), Writing16(flags), src, 0, rooms);
    }
  }

  lemma AnyBuffers32to8(flags: ConversionFlags, src: seq<UTF32>, rooms: seq<nat>)
    requires rooms != []
    ensures Advances(Step32to8(flags))
    ensures var r := Refill(Step32to8(flags), false, src, 0, rooms);
            r.result != TargetExhausted || Ample(rooms, 4, |src|) ==>
              Ended(Step32to8(flags), false, Illegal(flags), src, rooms, r)
  {
    Advances32to8(flags);
    Judges8(flags);
    if Ample(rooms, 4, |src|) {
      RefillEnds(Step32to8(flags), false, Illegal(flags), Refused(flags), Replacing8, 4, src, 0, rooms);
    }
    if Refill(Step32to8(flags), false, src, 0, rooms).result != TargetExhausted {
      RefillForgets(Step32to8(flags), false, Illegal(flags), Refused(flags), Replacing8, src, 0, rooms);
    }
  }

  /** A value above 0x10FFFF and two letters, one unit at a time: the caller never learns
      of the illegal value. */
  lemma IllegalForgotten()
    ensures Advances(Step32to16(StrictConversion))
    ensures var src: seq<UTF32> := [0x110000, 0x41, 0x42];
            && Run(Step32to16(StrictConversion), true, src, 0, 1) == Outcome(TargetExhausted, 2, [0x41])
            && Refill(Step32to16(StrictConversion), true, src, 0, [1, 1]) == Outcome(ConversionOK, 3, [0x41, 0x42])
            && Full(Step32to16(StrictConversion), src, 0) == Outcome(SourceIllegal, 3, [0x41, 0x42])
  {
    Advances32to16(StrictConversion);
    var step, src: seq<UTF32> := Step32to16(StrictConversion), [0x110000, 0x41, 0x42];
    assert step(src, 0) == Chunk(1, [], true) && step(src, 1) == Chunk(1, [0x41], false);
    assert step(src, 2) == Chunk(1, [0x42], false) && step(src, 3) == Stop(ConversionOK);
    assert Run(step, true, src, 2, 0) == Outcome(TargetExhausted, 2, []);
    assert Run(step, true, src, 1, 1) == Outcome(TargetExhausted, 2, [0x41]);
    assert Run(step, true, src, 2, 1) == Outcome(ConversionOK, 3, [0x42]);
    assert Full(step, src, 2) == Outcome(ConversionOK, 3, [0x42]);
    assert Full(step, src, 1) == Outcome(ConversionOK, 3, [0x41, 0x42]);
    assert [1, 1][1..] == [1];
    assert Refill(step, true, src, 2, [1]) == Outcome(ConversionOK, 3, [0x42]);
  }
}
