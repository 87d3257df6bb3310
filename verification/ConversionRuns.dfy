/** What a run of any of the converters comes to, given what it does with the
    character at the source cursor, and how runs with little room relate to runs with
    enough. */
module ConversionRuns {
  datatype ConversionResult = ConversionOK | SourceExhausted | TargetExhausted | SourceIllegal

  /** The character at the cursor: either the run stops in front of it, or so many
      source units are converted into these target units. A `bad` character is
      converted, but the run will not answer ConversionOK. */
  datatype Step<T> = Stop(why: ConversionResult) | Chunk(length: nat, units: seq<T>, bad: bool)

  /** The answer of a run, where it left the source cursor, and what it wrote. */
  datatype Outcome<T> = Outcome(result: ConversionResult, cursor: nat, units: seq<T>)

  /** What a step may do at a cursor: a converted character consumes something of the
      source; only the end of the source is no error. */
  predicate Proper<T>(c: Step<T>, left: nat) {
    match c
    case Stop(why) => why != TargetExhausted && (why == ConversionOK <==> left == 0)
    case Chunk(n, _, _) => 0 < n <= left
  }

  /** Nor is a character held against the run, or takes more than `most` units. */
  predicate Plain<T>(c: Step<T>, left: nat, most: nat) {
    Proper(c, left) && (c.Chunk? ==> !c.bad && |c.units| <= most)
  }

  ghost predicate Advances<S(!new), T>(step: (seq<S>, nat) -> Step<T>) {
    forall src: seq<S>, i: nat :: i <= |src| ==> Proper(step(src, i), |src| - i)
  }

  ghost predicate AllPlain<S(!new), T>(step: (seq<S>, nat) -> Step<T>, most: nat) {
    forall src: seq<S>, i: nat :: i <= |src| ==> Plain(step(src, i), |src| - i, most)
  }

  lemma PlainAdvances<S(!new), T>(step: (seq<S>, nat) -> Step<T>, most: nat)
    requires AllPlain(step, most)
    ensures Advances(step)
  {
    forall src: seq<S>, i: nat | i <= |src|
      ensures Proper(step(src, i), |src| - i)
    {
      assert Plain(step(src, i), |src| - i, most);
    }
  }

  /** `o`, after a part that wrote `units`. */
  function Prefixed<T>(units: seq<T>, bad: bool, o: Outcome<T>): Outcome<T> {
    Outcome(if bad && o.result.ConversionOK? then SourceIllegal else o.result, o.cursor, units + o.units)
  }

  lemma PrefixedTwice<T>(u: seq<T>, b: bool, v: seq<T>, c: bool, o: Outcome<T>)
    ensures Prefixed(u, b, Prefixed(v, c, o)) == Prefixed(u + v, b || c, o)
  {
    assert u + (v + o.units) == (u + v) + o.units;
  }

  lemma PrefixedNot<T>(o: Outcome<T>)
    ensures Prefixed([], false, o) == o
  {
    assert [] + o.units == o.units;
  }

  /** A run from the cursor `i` into a buffer with this much room. An `eager` converter
      wants room for one unit before it looks at the character. */
  ghost function Run<S(!new), T>(step: (seq<S>, nat) -> Step<T>, eager: bool, src: seq<S>, i: nat,
                                 room: nat): Outcome<T>
    requires Advances(step) && i <= |src|
    decreases |src| - i
  {
    if eager && room == 0 && i < |src| then Outcome(TargetExhausted, i, [])
    else
      match step(src, i)
      case Stop(why) => Outcome(why, i, [])
      case Chunk(n, units, bad) =>
        if room < |units| then Outcome(TargetExhausted, i, [])
        else assert Proper(step(src, i), |src| - i); Prefixed(units, bad, Run(step, eager, src, i + n, room - |units|))
  }

  /** A run with no limit on the target. */
  ghost function Full<S(!new), T>(step: (seq<S>, nat) -> Step<T>, src: seq<S>, i: nat): Outcome<T>
    requires Advances(step) && i <= |src|
    decreases |src| - i
  {
    match step(src, i)
    case Stop(why) => Outcome(why, i, [])
    case Chunk(n, units, bad) =>
      assert Proper(step(src, i), |src| - i); Prefixed(units, bad, Full(step, src, i + n))
  }

  lemma {:induction false} RunInside<S(!new), T>(step: (seq<S>, nat) -> Step<T>, eager: bool, src: seq<S>, i: nat,
                                                 room: nat)
    requires Advances(step) && i <= |src|
    ensures var o := Run(step, eager, src, i, room); i <= o.cursor <= |src| && |o.units| <= room
    decreases |src| - i
  {
    var c := step(src, i);
    assert Proper(c, |src| - i);
    if !(eager && room == 0) && c.Chunk? && |c.units| <= room {
      RunInside(step, eager, src, i + c.length, room - |c.units|);
    }
  }

  /** With room for all of it, and one unit more for an eager converter, the limit
      makes no difference. */
  lemma {:induction false} RunFits<S(!new), T>(step: (seq<S>, nat) -> Step<T>, eager: bool, src: seq<S>, i: nat,
                                               room: nat)
    requires Advances(step) && i <= |src|
    requires |Full(step, src, i).units| + (if eager then 1 else 0) <= room
    ensures Run(step, eager, src, i, room) == Full(step, src, i)
    decreases |src| - i
  {
    var c := step(src, i);
    assert Proper(c, |src| - i);
    if c.Chunk? {
      RunFits(step, eager, src, i + c.length, room - |c.units|);
    }
  }

  /** What is left when the room runs out goes with what has been written. */
  lemma {:induction false} ExhaustedUnits<S(!new), T>(step: (seq<S>, nat) -> Step<T>, eager: bool, src: seq<S>, i: nat,
                                                     room: nat)
    requires Advances(step) && i <= |src| && Run(step, eager, src, i, room).result == TargetExhausted
    ensures var o := Run(step, eager, src, i, room);
            && i <= o.cursor <= |src|
            && Full(step, src, i).units == o.units + Full(step, src, o.cursor).units
            && Full(step, src, i).cursor == Full(step, src, o.cursor).cursor
    decreases |src| - i
  {
    var c := step(src, i);
    assert Proper(c, |src| - i);
    if !(eager && room == 0) && c.Chunk? && |c.units| <= room {
      ExhaustedUnits(step, eager, src, i + c.length, room - |c.units|);
    }
  }

  lemma {:induction false} FullEnds<S(!new), T>(step: (seq<S>, nat) -> Step<T>, src: seq<S>, i: nat)
    requires Advances(step) && i <= |src|
    ensures var o := Full(step, src, i);
            && o.result != TargetExhausted && i <= o.cursor <= |src|
            && (o.result.ConversionOK? ==> o.cursor == |src|)
    decreases |src| - i
  {
    var c := step(src, i);
    assert Proper(c, |src| - i);
    if c.Chunk? {
      FullEnds(step, src, i + c.length);
    }
  }

  /** The cursors of `o` are at a character boundary, the same one: the rest of the
      full run starts there; and what stopped the run is the character there, which
      is no character, or does not fit. */
  ghost predicate AtCharacter<S(!new), T>(step: (seq<S>, nat) -> Step<T>, src: seq<S>, i: nat, room: nat, o: Outcome<T>)
    requires Advances(step) && i <= |src|
  {
    && i <= o.cursor <= |src| && |o.units| <= room
    && Full(step, src, i) == Prefixed(o.units, false, Full(step, src, o.cursor))
    && match step(src, o.cursor)
       case Stop(why) => o.result == why
       case Chunk(n, units, bad) => o.result == TargetExhausted && room < |o.units| + |units|
  }

  lemma AtCharacterLater<S(!new), T>(step: (seq<S>, nat) -> Step<T>, src: seq<S>, i: nat, room: nat,
                                     n: nat, units: seq<T>, o: Outcome<T>)
    requires Advances(step) && i + n <= |src| && step(src, i) == Chunk(n, units, false) && |units| <= room
    requires AtCharacter(step, src, i + n, room - |units|, o)
    ensures AtCharacter(step, src, i, room, Prefixed(units, false, o))
  {
    PrefixedTwice(units, false, o.units, false, Full(step, src, o.cursor));
  }

  lemma {:induction false} RunStopsAtCharacter<S(!new), T>(step: (seq<S>, nat) -> Step<T>, most: nat, src: seq<S>,
                                                          i: nat, room: nat)
    requires AllPlain(step, most) && i <= |src|
    ensures Advances(step) && AtCharacter(step, src, i, room, Run(step, false, src, i, room))
    decreases |src| - i
  {
    PlainAdvances(step, most);
    var c := step(src, i);
    assert Plain(c, |src| - i, most);
    if c.Chunk? && |c.units| <= room {
      RunStopsAtCharacter(step, most, src, i + c.length, room - |c.units|);
      AtCharacterLater(step, src, i, room, c.length, c.units, Run(step, false, src, i + c.length, room - |c.units|));
    } else {
      PrefixedNot(Full(step, src, i));
    }
  }

  /** The caller's loop: each time the target is exhausted, go on from where the
      source cursor was left, with the next fresh buffer. */
  ghost function Refill<S(!new), T>(step: (seq<S>, nat) -> Step<T>, eager: bool, src: seq<S>, i: nat,
                                    rooms: seq<nat>): Outcome<T>
    requires Advances(step) && i <= |src| && rooms != []
    decreases |rooms|
  {
    var o := Run(step, eager, src, i, rooms[0]);
    RunInside(step, eager, src, i, rooms[0]);
    if o.result == TargetExhausted && |rooms| > 1
    then Prefixed(o.units, false, Refill(step, eager, src, o.cursor, rooms[1..]))
    else o
  }

  /** Where the last of these calls begins. */
  ghost function LastStart<S(!new), T>(step: (seq<S>, nat) -> Step<T>, eager: bool, src: seq<S>, i: nat,
                                       rooms: seq<nat>): (last: nat)
    requires Advances(step) && i <= |src| && rooms != []
    ensures i <= last <= |src|
    decreases |rooms|
  {
    var o := Run(step, eager, src, i, rooms[0]);
    RunInside(step, eager, src, i, rooms[0]);
    if o.result == TargetExhausted && |rooms| > 1 then LastStart(step, eager, src, o.cursor, rooms[1..]) else i
  }

  /** Whatever the sizes of the buffers, a loop that ends with anything but an
      exhausted target has written, consumed and answered what one call with a large
      buffer would. */
  lemma {:induction false} RefillIsFull<S(!new), T>(step: (seq<S>, nat) -> Step<T>, most: nat, src: seq<S>, i: nat,
                                                   rooms: seq<nat>)
    requires AllPlain(step, most) && Advances(step) && i <= |src| && rooms != []
    requires Refill(step, false, src, i, rooms).result != TargetExhausted
    ensures Refill(step, false, src, i, rooms) == Full(step, src, i)
    decreases |rooms|
  {
    var o := Run(step, false, src, i, rooms[0]);
    RunStopsAtCharacter(step, most, src, i, rooms[0]);
    if o.result == TargetExhausted {
      RefillIsFull(step, most, src, o.cursor, rooms[1..]);
    } else {
      assert Full(step, src, o.cursor) == Outcome(o.result, o.cursor, []);
      assert o.units + [] == o.units;
    }
  }

  /** Buffers that hold any one character finish the job, one call per source unit at
      the most. */
  lemma {:induction false} RefillFinishes<S(!new), T>(step: (seq<S>, nat) -> Step<T>, most: nat, src: seq<S>, i: nat,
                                                     rooms: seq<nat>)
    requires AllPlain(step, most) && Advances(step) && i <= |src|
    requires Ample(rooms, most, |src| - i)
    ensures Refill(step, false, src, i, rooms) == Full(step, src, i)
    decreases |rooms|
  {
    var o := Run(step, false, src, i, rooms[0]);
    RunStopsAtCharacter(step, most, src, i, rooms[0]);
    FullEnds(step, src, i);
    if o.result == TargetExhausted {
      assert Plain(step(src, o.cursor), |src| - o.cursor, most);
      NoneWritten(o.units, Full(step, src, i));
      RefillFinishes(step, most, src, o.cursor, rooms[1..]);
    } else {
      RefillIsFull(step, most, src, i, rooms);
    }
  }

  lemma NoneWritten<T>(units: seq<T>, o: Outcome<T>)
    ensures Prefixed(units, false, o) == o ==> units == []
  {
    assert |units + o.units| == |units| + |o.units|;
  }

  // One call over a target buffer: written between `start` and `at`, and nowhere else.

  /** `now` is `was` but for the part from `start` to `at`. */
  predicate Kept<T(==)>(was: seq<T>, now: seq<T>, start: nat, at: nat) {
    |now| == |was| && start <= at <= |was| && now[..start] == was[..start] && now[at..] == was[at..]
  }

  /** `now` is `mid` with these units written at `at`. */
  predicate Written<T(==)>(mid: seq<T>, now: seq<T>, at: nat, units: seq<T>) {
    at + |units| <= |mid| && now == mid[..at] + units + mid[at + |units|..]
  }

  /** `*target++ = unit` */
  method Put<T>(target: array<T>, at: nat, unit: T)
    requires at < target.Length
    modifies target
    ensures Written(old(target[..]), target[..], at, [unit])
  {
    target[at] := unit;
  }

  method PutTwo<T>(target: array<T>, at: nat, first: T, second: T)
    requires at + 1 < target.Length
    modifies target
    ensures Written(old(target[..]), target[..], at, [first, second])
  {
    target[at] := first;
    target[at + 1] := second;
  }

  /** What became of the character at the cursor: it stopped the loop, with nothing
      written, or its units were written, and `result` says whether it is held against
      the run. */
  predicate Handled<T(==)>(c: Step<T>, was: seq<T>, now: seq<T>, at: nat, end: nat,
                           stopped: bool, result: ConversionResult, after: nat) {
    match c
    case Stop(why) => stopped && result == why && now == was
    case Chunk(_, units, bad) =>
      if end < at + |units| then stopped && result == TargetExhausted && now == was
      else
        && !stopped && result == (if bad then SourceIllegal else ConversionOK)
        && after == at + |units| && Written(was, now, at, units)
  }

  /** What a call is about: the source and its cursor, the target as it was and the part
      of it to write. */
  datatype Call<!S(!new), T> =
    Call(step: (seq<S>, nat) -> Step<T>, eager: bool, src: seq<S>, from: nat, was: seq<T>, start: nat, end: nat)
  {
    ghost predicate Valid() {
      Advances(step) && from <= |src| && start <= end <= |was|
    }

    ghost function Expected(): Outcome<T>
      requires Valid()
    {
      Run(step, eager, src, from, end - start)
    }

    /** What a converter has to show: result and cursors are those of the run, and its
        units are in the target. */
    ghost predicate Answered(now: seq<T>, result: ConversionResult, s: nat, at: nat) {
      && Valid() && at <= end && Kept(was, now, start, at)
      && Expected() == Outcome(result, s, now[start..at])
    }

    /** The loop invariant of the converters: what is left of the run is the run from the
        cursor on into what is left of the target. */
    ghost predicate Underway(now: seq<T>, s: nat, at: nat, bad: bool) {
      && Valid() && s <= |src| && at <= end && Kept(was, now, start, at)
      && Expected() == Prefixed(now[start..at], bad, Run(step, eager, src, s, end - at))
    }

    lemma Start()
      requires Valid()
      ensures Underway(was, from, start, false)
    {
      PrefixedNot(Expected());
    }

    /** The character fits, and its units have been written. */
    lemma Next(mid: seq<T>, now: seq<T>, s: nat, at: nat, bad: bool, next: nat, units: seq<T>, after: nat, bad': bool)
      requires Underway(mid, s, at, bad) && (eager ==> at < end)
      requires s <= next <= |src| && after == at + |units| <= end && step(src, s) == Chunk(next - s, units, bad')
      requires Written(mid, now, at, units)
      ensures Underway(now, next, after, bad || bad')
    {
      assert Proper(step(src, s), |src| - s);
      WrittenNext(was, mid, now, start, at, units);
      PrefixedTwice(mid[start..at], bad, units, bad', Run(step, eager, src, next, end - after));
    }

    lemma Stops(now: seq<T>, s: nat, at: nat, bad: bool, why: ConversionResult)
      requires Underway(now, s, at, bad) && (eager && s < |src| ==> at < end) && step(src, s) == Stop(why)
      ensures Answered(now, if bad && why.ConversionOK? then SourceIllegal else why, s, at)
    {
      assert now[start..at] + [] == now[start..at];
    }

    lemma Exhausts(now: seq<T>, s: nat, at: nat, bad: bool)
      requires Underway(now, s, at, bad)
      requires (eager && at == end && s < |src|) || (step(src, s).Chunk? && end < at + |step(src, s).units|)
      ensures Answered(now, TargetExhausted, s, at)
    {
      assert now[start..at] + [] == now[start..at];
    }

    lemma Turn(c: Step<T>, mid: seq<T>, now: seq<T>, s: nat, at: nat, bad: bool,
               stopped: bool, result: ConversionResult, after: nat)
      requires Underway(mid, s, at, bad) && s < |src| && (eager ==> at < end)
      requires c == step(src, s) && Handled(c, mid, now, at, end, stopped, result, after)
      ensures if stopped then Answered(now, result, s, at)
              else c.Chunk? && Underway(now, s + c.length, after, bad || result == SourceIllegal)
    {
      assert Proper(c, |src| - s);
      match c
      case Stop(why) => Stops(mid, s, at, bad, why);
      case Chunk(n, units, b) =>
        if stopped {
          Exhausts(mid, s, at, bad);
        } else {
          Next(mid, now, s, at, bad, s + n, units, after, b);
        }
    }

    lemma Ends(now: seq<T>, s: nat, at: nat, bad: bool)
      requires Underway(now, s, at, bad) && |src| <= s
      ensures Answered(now, if bad then SourceIllegal else ConversionOK, s, at)
    {
      assert Proper(step(src, s), |src| - s);
      Stops(now, s, at, bad, ConversionOK);
    }
  }

  lemma WrittenNext<T>(was: seq<T>, mid: seq<T>, now: seq<T>, start: nat, at: nat, units: seq<T>)
    requires Kept(was, mid, start, at) && Written(mid, now, at, units)
    ensures Kept(was, now, start, at + |units|) && now[start..at + |units|] == mid[start..at] + units
  {
    assert mid[at + |units|..] == mid[at..][|units|..];
    assert was[at + |units|..] == was[at..][|units|..];
  }

  // A caller's loop, one buffer after the other.

  /** What the loop is about: the source, and the sizes of the buffers it has. */
  datatype Loop<!S(!new), T> = Loop(step: (seq<S>, nat) -> Step<T>, eager: bool, src: seq<S>, rooms: seq<nat>)
  {
    ghost predicate Valid() {
      Advances(step) && rooms != []
    }

    ghost function Expected(): Outcome<T>
      requires Valid()
    {
      Refill(step, eager, src, 0, rooms)
    }

    /** What the loop has to show in the end. */
    ghost predicate Answered(result: ConversionResult, cursor: nat, units: seq<T>) {
      Valid() && Outcome(result, cursor, units) == Expected()
    }

    /** So far these units have come out, the source cursor is at `cursor`, and the
        buffers from `k` on are still to be used. */
    ghost predicate Underway(k: nat, result: ConversionResult, cursor: nat, units: seq<T>) {
      && Valid() && k <= |rooms|
      && if k < |rooms|
         then cursor <= |src| && Expected() == Prefixed(units, false, Refill(step, eager, src, cursor, rooms[k..]))
         else Answered(result, cursor, units)
    }

    lemma Start()
      requires Valid()
      ensures Underway(0, TargetExhausted, 0, [])
    {
      assert rooms[0..] == rooms;
      PrefixedNot(Expected());
    }

    /** Another buffer used: the loop goes on, or it has come to its end. */
    lemma Next(k: nat, before: ConversionResult, cursor: nat, units: seq<T>,
               call: Call<S, T>, now: seq<T>, result: ConversionResult, s: nat, at: nat)
      requires Underway(k, before, cursor, units) && k < |rooms|
      requires |call.was| == rooms[k] && call == Call(step, eager, src, cursor, call.was, 0, rooms[k])
      requires call.Answered(now, result, s, at)
      ensures if result == TargetExhausted then Underway(k + 1, result, s, units + now[0..at])
              else Answered(result, s, units + now[0..at])
    {
      var o := call.Expected();
      RunInside(step, eager, src, cursor, rooms[k]);
      assert rooms[k..][1..] == rooms[k + 1..];
      if o.result == TargetExhausted && k + 1 < |rooms| {
        PrefixedTwice(units, false, o.units, false, Refill(step, eager, src, o.cursor, rooms[k + 1..]));
      }
    }
  }

  /** So many buffers, each with room for any one character, are enough in any case. */
  predicate Ample(rooms: seq<nat>, most: nat, units: nat) {
    |rooms| > units && forall k :: 0 <= k < |rooms| ==> most <= rooms[k]
  }
}
