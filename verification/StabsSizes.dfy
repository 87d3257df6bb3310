/** What the sizes that STABS functions are given come to in 64 bits, how often the fallback
    size is given, and which functions have no name. */
module StabsSizes {
  import opened Addresses
  import opened Wrappers
  import opened ByteCursors
  import opened StabsEntries
  import opened StabsTrace
  import opened StabsToModule

  // ------------------------------------------------------ how large addresses get

  /** Values of entries are below this. */
  function ValueLimit(valueSize: nat): nat {
    if valueSize == 4 then 0x1_0000_0000 else ADDRESS_SPACE
  }

  /** Boundaries are below this: the sum of two values, unless that wraps. */
  function BoundaryLimit(valueSize: nat): nat {
    if valueSize == 4 then 0x2_0000_0000 else ADDRESS_SPACE
  }

  predicate ValuesFit(entries: seq<Entry>, valueSize: nat) {
    forall k | 0 <= k < |entries| :: entries[k].value < ValueLimit(valueSize)
  }

  lemma CapacityOfValue(valueSize: nat)
    requires IsValueSize(valueSize)
    ensures Capacity(valueSize) == ValueLimit(valueSize)
  {
    assert Capacity(4) == 0x1_0000_0000;
    assert Capacity(8) == 0x1_0000_0000 * Capacity(4);
  }

  lemma {:induction false} EntriesFit(layout: Layout, bytes: seq<Byte>, at: nat)
    requires layout.Valid() && at <= |bytes|
    ensures ValuesFit(layout.EntriesFrom(bytes, at), layout.valueSize)
    decreases |bytes| - at
  {
    if at + layout.Size() <= |bytes| {
      NumberFits(layout.bigEndian, bytes[at + 8..at + 8 + layout.valueSize]);
      CapacityOfValue(layout.valueSize);
      EntriesFit(layout, bytes, at + layout.Size());
    }
  }

  predicate MarksFit(call: Call, valueSize: nat) {
    forall k | 0 <= k < |Marks(call)| :: Marks(call)[k] < BoundaryLimit(valueSize)
  }

  predicate CallsFit(calls: seq<Call>, valueSize: nat) {
    forall k | 0 <= k < |calls| :: MarksFit(calls[k], valueSize)
  }

  predicate StartFits(mode: Mode, valueSize: nat) {
    mode.InFunction? ==> mode.start < ValueLimit(valueSize)
  }

  lemma CallsFitConcat(a: seq<Call>, b: seq<Call>, valueSize: nat)
    requires CallsFit(a, valueSize) && CallsFit(b, valueSize)
    ensures CallsFit(a + b, valueSize)
  {
  }

  lemma OutsideFits(rules: Rules, st: State, e: Entry, valueSize: nat)
    requires IsValueSize(valueSize) && e.value < ValueLimit(valueSize) && (st.mode.Outside? || st.mode.Named?)
    ensures var r := rules.OutsideStep(st, e); CallsFit(r.calls, valueSize) && StartFits(r.state.mode, valueSize)
  {
  }

  lemma UnitFits(rules: Rules, st: State, e: Entry, valueSize: nat)
    requires IsValueSize(valueSize) && e.value < ValueLimit(valueSize) && Sane(st) && st.mode.InUnit?
    ensures var r := rules.UnitStep(st, e); CallsFit(r.calls, valueSize) && StartFits(r.state.mode, valueSize)
  {
    if e.kind == N_SO {
      OutsideFits(rules, st.(mode := Outside, queue := []), e, valueSize);
    }
  }

  lemma StepFits(rules: Rules, st: State, e: Entry, valueSize: nat)
    requires IsValueSize(valueSize) && e.value < ValueLimit(valueSize) && Sane(st) && StartFits(st.mode, valueSize)
    ensures var r := rules.Step(st, e); CallsFit(r.calls, valueSize) && StartFits(r.state.mode, valueSize)
  {
    match st.mode
    case Outside => OutsideFits(rules, st, e, valueSize);
    case Named(_) => OutsideFits(rules, st, e, valueSize);
    case InUnit => UnitFits(rules, st, e, valueSize);
    case InFunction(start) =>
      if e.kind == N_FUN || e.kind == N_SO {
        UnitFits(rules, st.(mode := InUnit), e, valueSize);
        WrapFits(start, e.value, valueSize);
      }
  }

  lemma WrapFits(start: nat, value: nat, valueSize: nat)
    requires start < ValueLimit(valueSize) && value < ValueLimit(valueSize)
    ensures Wrap(start + value) < BoundaryLimit(valueSize)
  {
  }

  lemma {:induction false} RestFits(rules: Rules, st: State, entries: seq<Entry>, i: nat, valueSize: nat)
    requires IsValueSize(valueSize) && ValuesFit(entries, valueSize) && Sane(st) && StartFits(st.mode, valueSize)
    ensures CallsFit(rules.Rest(st, entries, i), valueSize)
    decreases |entries| - i
  {
    if i < |entries| {
      var r := rules.Step(st, entries[i]);
      StepNested(rules, st, entries[i]);
      StepFits(rules, st, entries[i], valueSize);
      RestFits(rules, r.state, entries, i + 1, valueSize);
      CallsFitConcat(r.calls, rules.Rest(r.state, entries, i + 1), valueSize);
    }
  }

  lemma {:induction false} BoundariesFit(calls: seq<Call>, valueSize: nat)
    requires CallsFit(calls, valueSize)
    ensures forall b | b in Boundaries(calls) :: b < BoundaryLimit(valueSize)
  {
    if calls != [] {
      BoundariesFit(calls[..|calls| - 1], valueSize);
      assert MarksFit(calls[|calls| - 1], valueSize);
    }
  }

  // ---------------------------------------------------------- ends in 64 bits

  /** Some boundary ends a function at this address. */
  ghost predicate Ends(boundaries: seq<nat>, address: nat) {
    exists b :: b in boundaries && b > address
  }

  /** A function ends inside the address space, unless it has the fallback size and starts
      less than that below the end. */
  lemma EndInSpace(boundaries: seq<nat>, address: nat, size: nat)
    requires IsSize(boundaries, address, size) && forall b | b in boundaries :: b < ADDRESS_SPACE
    ensures address + size <= ADDRESS_SPACE <==> Ends(boundaries, address) || address <= ADDRESS_SPACE - FALLBACK_SIZE
  {
    if b :| b in boundaries && b > address {
      assert address + size in boundaries;
    }
  }

  /** The address belongs to these bytes, which may go on at zero. */
  predicate Occupies(address: nat, size: nat, b: nat) {
    (b - address) % ADDRESS_SPACE < size
  }

  lemma OccupiesAt(address: nat, size: nat, b: nat)
    requires address < ADDRESS_SPACE && b < ADDRESS_SPACE
    ensures Occupies(address, size, b) <==>
            if address <= b then b < address + size else b + ADDRESS_SPACE < address + size
  {
    if b < address {
      assert (b - address) % ADDRESS_SPACE == b - address + ADDRESS_SPACE;
    } else {
      assert (b - address) % ADDRESS_SPACE == b - address;
    }
  }

  /** In 64 bits too, two functions at different addresses have no address in common, unless
      the higher one has the fallback size and comes round to the lower one. */
  lemma SharedIffWrapped(boundaries: seq<nat>, a: nat, sizeA: nat, b: nat, sizeB: nat)
    requires IsSize(boundaries, a, sizeA) && IsSize(boundaries, b, sizeB)
    requires a in boundaries && b in boundaries && a < b && forall m | m in boundaries :: m < ADDRESS_SPACE
    ensures (exists x: nat | x < ADDRESS_SPACE :: Occupies(a, sizeA, x) && Occupies(b, sizeB, x)) <==>
            a + ADDRESS_SPACE < b + sizeB
  {
    SizesDisjoint(boundaries, a, sizeA, b, sizeB);
    forall x: nat | x < ADDRESS_SPACE
      ensures Occupies(a, sizeA, x) && Occupies(b, sizeB, x) ==> a + ADDRESS_SPACE < b + sizeB
    {
      OccupiesAt(a, sizeA, x);
      OccupiesAt(b, sizeB, x);
    }
    if a + ADDRESS_SPACE < b + sizeB {
      OccupiesAt(a, sizeA, a);
      OccupiesAt(b, sizeB, a);
      assert Occupies(a, sizeA, a) && Occupies(b, sizeB, a);
    }
  }

  /** The last function, near the end, comes round to the first. */
  lemma ComesRound()
    ensures var boundaries: seq<nat> := [0x1000, 0xFFFF_FFFF_F800_0000];
            && IsSize(boundaries, 0x1000, 0xFFFF_FFFF_F7FF_F000) && Occupies(0x1000, 0xFFFF_FFFF_F7FF_F000, 0x1000)
            && IsSize(boundaries, 0xFFFF_FFFF_F800_0000, FALLBACK_SIZE)
            && Occupies(0xFFFF_FFFF_F800_0000, FALLBACK_SIZE, 0x1000)
  {
    OccupiesAt(0x1000, 0xFFFF_FFFF_F7FF_F000, 0x1000);
    OccupiesAt(0xFFFF_FFFF_F800_0000, FALLBACK_SIZE, 0x1000);
  }

  // ------------------------------------------------------- how often it falls back

  /** The fallback size is given to one function at the most, as is promised, exactly if no
      two functions are at the same address with no boundary above. */
  lemma FallsBackOnce(addresses: seq<nat>, boundaries: seq<nat>)
    requires forall a | a in addresses :: a in boundaries
    ensures (forall i, j | 0 <= i < j < |addresses| :: Ends(boundaries, addresses[i]) || Ends(boundaries, addresses[j]))
            <==>
            (forall i, j | 0 <= i < j < |addresses| && addresses[i] == addresses[j] :: Ends(boundaries, addresses[i]))
  {
    forall i, j | 0 <= i < j < |addresses|
      ensures !Ends(boundaries, addresses[i]) && !Ends(boundaries, addresses[j]) ==> addresses[i] == addresses[j]
    {
      assert addresses[i] in boundaries && addresses[j] in boundaries;
    }
  }

  lemma BareFunctionKept(text: nat -> string, base: nat, name: string, address: nat, end: nat, rest: seq<Call>)
    requires base <= address
    ensures Kept(text, base, [StartFunction(name, address), EndFunction(end)] + rest) ==
            [Collected(name, address, [])] + Kept(text, base, rest)
  {
    var calls := [StartFunction(name, address), EndFunction(end)] + rest;
    var inside := [EndFunction(end)] + rest;
    assert calls[1..] == inside && inside[..0] == [] && inside[1..] == rest;
    assert LeadingLines(inside) == 0;
    var current := Collected(name, address, []);
    assert current.(lines := current.lines + LinesOf(text, inside[..0])) == current;
  }

  /** One function recorded twice, and nothing behind it: both get the fallback size. */
  lemma FallsBackTwice(text: nat -> string)
    ensures var f, end := StartFunction("f", 0x1000), EndFunction(0);
            var calls := [StartCompilationUnit(0, 0x1000, None), f, end, f, end, EndCompilationUnit(0)];
            && Nested(Idle, calls) == Some(Idle)
            && Kept(text, 0, calls) == [Collected("f", 0x1000, []), Collected("f", 0x1000, [])]
            && !Ends(Boundaries(calls), 0x1000) && IsSize(Boundaries(calls), 0x1000, FALLBACK_SIZE)
  {
    var f, end := StartFunction("f", 0x1000), EndFunction(0);
    var calls := [StartCompilationUnit(0, 0x1000, None), f, end, f, end, EndCompilationUnit(0)];
    var last := [EndCompilationUnit(0)];
    assert calls[1..] == [f, end] + ([f, end] + last);
    BareFunctionKept(text, 0x1000, "f", 0x1000, 0, last);
    BareFunctionKept(text, 0x1000, "f", 0x1000, 0, [f, end] + last);
    assert last[1..] == [] && Kept(text, 0x1000, last) == Kept(text, 0, []) == [];
    UnitOfTwo(f, end);
    OnlyBoundary(calls, 0x1000);
  }

  lemma UnitOfTwo(f: Call, end: Call)
    requires f.StartFunction? && end.EndFunction?
    ensures Nested(Idle, [StartCompilationUnit(0, 0x1000, None), f, end, f, end, EndCompilationUnit(0)]) == Some(Idle)
  {
    var calls := [StartCompilationUnit(0, 0x1000, None), f, end, f, end, EndCompilationUnit(0)];
    NestedConcat(Idle, calls[..1], calls[1..]);
    NestedConcat(Unit, [f, end], [f, end, EndCompilationUnit(0)]);
    NestedConcat(Unit, [f, end], [EndCompilationUnit(0)]);
    assert calls == calls[..1] + calls[1..] && calls[1..] == [f, end] + [f, end, EndCompilationUnit(0)];
    assert [f, end, EndCompilationUnit(0)] == [f, end] + [EndCompilationUnit(0)];
    assert [f, end][1..] == [end] && [end][1..] == [] && calls[..1][1..] == [];
  }

  lemma {:induction false} OnlyBoundary(calls: seq<Call>, m: nat)
    requires forall c | c in calls :: Marks(c) == [] || Marks(c) == [m]
    ensures forall b | b in Boundaries(calls) :: b == m
  {
    if calls != [] {
      assert calls[|calls| - 1] in calls;
      OnlyBoundary(calls[..|calls| - 1], m);
    }
  }

  // ------------------------------------------------------------ functions without a name

  /** The calls start a function without a name at or above its unit's base. */
  function KeepsNameless(base: nat, calls: seq<Call>): bool
    decreases |calls|
  {
    if calls == [] then false
    else
      match calls[0]
      case StartCompilationUnit(_, address, _) => KeepsNameless(address, calls[1..])
      case EndCompilationUnit(_) => KeepsNameless(0, calls[1..])
      case StartFunction(name, address) => (name == "" && address >= base) || KeepsNameless(base, calls[1..])
      case _ => KeepsNameless(base, calls[1..])
  }

  lemma {:induction false} BehindLines(base: nat, calls: seq<Call>)
    ensures var n := LeadingLines(calls);
            && KeepsNameless(base, calls) == KeepsNameless(base, calls[n..])
            && Nested(Function, calls) == Nested(Function, calls[n..])
  {
    if calls != [] && calls[0].ReportLine? {
      BehindLines(base, calls[1..]);
      assert calls[1..][LeadingLines(calls[1..])..] == calls[LeadingLines(calls)..];
    } else {
      assert calls[0..] == calls;
    }
  }

  ghost predicate HasNameless(collected: seq<Collected>) {
    exists k :: k in collected && k.name == ""
  }

  lemma HasNamelessConcat(a: seq<Collected>, b: seq<Collected>)
    ensures HasNameless(a + b) <==> HasNameless(a) || HasNameless(b)
  {
    if k :| k in a && k.name == "" {
      assert k in a + b;
    }
    if k :| k in b && k.name == "" {
      assert k in a + b;
    }
  }

  /** A function without a name is collected exactly if the calls start one that is kept. */
  lemma {:induction false} NamelessKept(text: nat -> string, base: nat, calls: seq<Call>, phase: Phase)
    requires Nested(phase, calls).Some? && !phase.Function?
    ensures HasNameless(Kept(text, base, calls)) <==> KeepsNameless(base, calls)
    decreases |calls|
  {
    if calls != [] {
      match calls[0]
      case StartCompilationUnit(_, address, _) => NamelessKept(text, address, calls[1..], Unit);
      case EndCompilationUnit(_) => NamelessKept(text, 0, calls[1..], Idle);
      case StartFunction(name, address) => NamelessPending(text, base, Collected(name, address, []), calls[1..]);
      case EndFunction(_) => assert false;
      case ReportLine(_, _, _) => assert false;
    }
  }

  lemma {:induction false} NamelessPending(text: nat -> string, base: nat, current: Collected, calls: seq<Call>)
    requires Nested(Function, calls).Some?
    ensures HasNameless(Pending(text, base, current, calls)) <==>
            (current.name == "" && current.address >= base) || KeepsNameless(base, calls)
    decreases |calls|
  {
    var n := LeadingLines(calls);
    BehindLines(base, calls);
    var held := current.(lines := current.lines + LinesOf(text, calls[..n]));
    var own := if current.address >= base then [held] else [];
    assert own != [] ==> held in own;
    if n < |calls| {
      assert !calls[n].ReportLine? by {
        NoLine(calls);
      }
      assert calls[n..][1..] == calls[n + 1..] && calls[n..][0] == calls[n];
      NamelessKept(text, base, calls[n + 1..], Unit);
      HasNamelessConcat(own, Kept(text, base, calls[n + 1..]));
    } else {
      assert own + [] == own;
    }
  }

  lemma {:induction false} NoLine(calls: seq<Call>)
    ensures LeadingLines(calls) < |calls| ==> !calls[LeadingLines(calls)].ReportLine?
  {
    if calls != [] && calls[0].ReportLine? {
      NoLine(calls[1..]);
    }
  }

  /** The entries that start such functions: directly in a unit without anything ahead of
      a colon, or inside a function with a colon in front. */
  predicate Nameless(rules: Rules, st: State, e: Entry) {
    && e.kind == N_FUN && BeforeColon(rules.Name(st, e)) == ""
    && (st.mode.InUnit? || (st.mode.InFunction? && rules.Name(st, e) != ""))
  }

  lemma NamelessEntry(rules: Rules, st: State, e: Entry)
    requires Sane(st)
    ensures (exists c :: c in rules.Step(st, e).calls && c.StartFunction? && c.name == "") <==> Nameless(rules, st, e)
  {
    var calls := rules.Step(st, e).calls;
    if Nameless(rules, st, e) {
      var c := StartFunction("", e.value);
      assert calls == (if st.mode.InUnit? then [c] + st.queue else [EndFunction(e.value)] + ([c] + st.queue));
      assert c in calls;
    }
  }

  /** A file and a function without a name in it: the function is collected. */
  lemma NamelessCollected(text: nat -> string)
    ensures var strings := Strings(4, (offset: nat) => if offset == 1 then "a.c" else "");
            var entries := [Entry(1, N_SO, 0, 0, 0x1000), Entry(0, N_FUN, 0, 0, 0x1000)];
            var calls := Rules(strings, false).Rest(INITIAL, entries, 0);
            && calls == [StartCompilationUnit(1, 0x1000, None), StartFunction("", 0x1000),
                         EndFunction(0), EndCompilationUnit(0)]
            && HasNameless(Kept(text, 0, calls))
  {
    var strings := Strings(4, (offset: nat) => if offset == 1 then "a.c" else "");
    var rules := Rules(strings, false);
    var entries := [Entry(1, N_SO, 0, 0, 0x1000), Entry(0, N_FUN, 0, 0, 0x1000)];
    var begun := State(InUnit, 0, 0, 1, []);
    assert rules.Step(INITIAL, entries[0]) == Result(begun, [StartCompilationUnit(1, 0x1000, None)]);
    assert rules.Step(begun, entries[1]) == Result(begun.(mode := InFunction(0x1000)), [StartFunction("", 0x1000)]);
    var calls := rules.Rest(INITIAL, entries, 0);
    assert rules.Rest(begun.(mode := InFunction(0x1000)), entries, 2) == [EndFunction(0), EndCompilationUnit(0)];
    assert rules.Rest(begun, entries, 1) == [StartFunction("", 0x1000), EndFunction(0), EndCompilationUnit(0)];
    assert calls[1..] == rules.Rest(begun, entries, 1);
    RestNested(rules, INITIAL, entries, 0);
    NamelessKept(text, 0, calls, Idle);
  }

  // --------------------------------------------------------------- what is collected

  predicate AllLines(lines: seq<Call>) {
    forall k :: 0 <= k < |lines| ==> lines[k].ReportLine?
  }

  lemma {:induction false} LinesAre(text: nat -> string, lines: seq<Call>)
    requires AllLines(lines)
    ensures |LinesOf(text, lines)| == |lines|
    ensures forall k | 0 <= k < |lines| ::
              LinesOf(text, lines)[k] == SourceLine(lines[k].address, 0, text(lines[k].file), lines[k].number)
  {
    if lines != [] {
      LinesAre(text, lines[1..]);
    }
  }

  lemma {:induction false} LeadingAre(lines: seq<Call>, rest: seq<Call>)
    requires AllLines(lines) && (rest == [] || !rest[0].ReportLine?)
    ensures LeadingLines(lines + rest) == |lines|
  {
    if lines == [] {
      assert lines + rest == rest;
    } else {
      assert (lines + rest)[1..] == lines[1..] + rest;
      LeadingAre(lines[1..], rest);
    }
  }

  /** A function is collected with its lines, if it is not below its unit's base, and what
      comes behind it is collected all the same. */
  lemma FunctionCollected(text: nat -> string, base: nat, name: string, address: nat, lines: seq<Call>, end: nat,
                          rest: seq<Call>)
    requires AllLines(lines)
    ensures Kept(text, base, [StartFunction(name, address)] + (lines + ([EndFunction(end)] + rest))) ==
            (if address < base then [] else [Collected(name, address, LinesOf(text, lines))]) + Kept(text, base, rest)
  {
    var tail := [EndFunction(end)] + rest;
    var inside := lines + tail;
    LeadingAre(lines, tail);
    assert ([StartFunction(name, address)] + inside)[1..] == inside;
    assert inside[..|lines|] == lines && inside[|lines| + 1..] == rest;
    assert [] + LinesOf(text, lines) == LinesOf(text, lines);
  }

  /** A unit's start is the base of its functions, and there is none behind its end. */
  lemma UnitCollected(text: nat -> string, base: nat, file: nat, address: nat, directory: Option<nat>, end: nat,
                      rest: seq<Call>)
    ensures Kept(text, base, [StartCompilationUnit(file, address, directory)] + rest) == Kept(text, address, rest)
    ensures Kept(text, base, [EndCompilationUnit(end)] + rest) == Kept(text, 0, rest)
  {
    assert ([StartCompilationUnit(file, address, directory)] + rest)[1..] == rest;
    assert ([EndCompilationUnit(end)] + rest)[1..] == rest;
  }

  /** The boundaries are the starts of units and functions, and their ends but for zero. */
  predicate IsMark(c: Call, b: nat) {
    match c
    case StartCompilationUnit(_, address, _) => b == address
    case StartFunction(_, address) => b == address
    case EndCompilationUnit(address) => b == address && b != 0
    case EndFunction(address) => b == address && b != 0
    case ReportLine(_, _, _) => false
  }

  lemma {:induction false} BoundariesAre(calls: seq<Call>, b: nat)
    ensures b in Boundaries(calls) <==> exists c :: c in calls && IsMark(c, b)
  {
    if calls != [] {
      var front, last := calls[..|calls| - 1], calls[|calls| - 1];
      BoundariesAre(front, b);
      assert calls == front + [last];
      assert b in Marks(last) <==> IsMark(last, b);
    }
  }

  /** A function with a size, and one with none behind it. */
  lemma SizesByTheNumbers(size: nat)
    ensures IsSize([0x1000, 0x1020, 0x2000], 0x1000, size) <==> size == 0x20
    ensures IsSize([0x1000, 0x1020, 0x2000], 0x2000, size) <==> size == 0x1000_0000
  {
    var boundaries: seq<nat> := [0x1000, 0x1020, 0x2000];
    assert 0x1020 in boundaries && 0x2000 in boundaries;
    assert forall b | b in boundaries :: b == 0x1000 || b == 0x1020 || b == 0x2000;
  }
}
