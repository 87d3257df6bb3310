/** What a .stab section says, entry by entry: the calls a handler receives, as a
    machine that takes one entry at a time. */
module StabsTrace {
  import opened Addresses
  import opened Wrappers
  import opened StabsEntries

  const N_UNDF := 0
  const N_FUN := 0x24
  const N_SLINE := 0x44
  const N_SO := 0x64
  const N_SOL := 0x84

  /** The string section: its size, and the string that starts at an offset. */
  datatype Strings = Strings(size: nat, at: nat -> string)

  /** A handler's calls. A file is named by the offset of its name. */
  datatype Call =
    | StartCompilationUnit(file: nat, address: nat, directory: Option<nat>)
    | EndCompilationUnit(address: nat)
    | StartFunction(name: string, address: nat)
    | EndFunction(address: nat)
    | ReportLine(address: nat, file: nat, number: nat)

  datatype Mode =
    | Outside
    | Named(directory: nat)
    | InUnit
    | InFunction(start: nat)

  datatype State = State(mode: Mode, stringOffset: nat, nextOffset: nat, file: nat, queue: seq<Call>)

  const INITIAL := State(Outside, 0, 0, 0, [])

  datatype Result = Result(state: State, calls: seq<Call>) {
    function After(earlier: seq<Call>): Result {
      Result(state, earlier + calls)
    }
  }

  function Wrap(n: nat): nat {
    n % ADDRESS_SPACE
  }

  /** The offset of an entry's name; one outside the section stands for the null string. */
  function Symbol(strings: Strings, stringOffset: nat, e: Entry): nat {
    var offset := Wrap(stringOffset + e.nameOffset);
    if offset >= ADDRESS_SPACE / 2 || offset >= strings.size then 0 else offset
  }

  predicate IsDirectory(name: string) {
    name != "" && name[|name| - 1] == '/'
  }

  /** The name before the colon, if there is one. */
  function BeforeColon(name: string): string {
    if name == "" || name[0] == ':' then "" else [name[0]] + BeforeColon(name[1..])
  }

  /** The line number, unsigned as the writers mean it. */
  function LineNumber(e: Entry): nat {
    e.descriptor % 0x10000
  }

  /** The rules: which section, and whether units have headers. */
  datatype Rules = Rules(strings: Strings, unitized: bool) {
    function Name(st: State, e: Entry): string {
      strings.at(Symbol(strings, st.stringOffset, e))
    }

    /** A source file's name begins a unit; an empty name is a stray end marker. */
    function File(st: State, e: Entry, directory: Option<nat>): Result {
      if Name(st, e) == "" then Result(st.(mode := Outside), [])
      else
        var file := Symbol(strings, st.stringOffset, e);
        Result(st.(mode := InUnit, file := file), [StartCompilationUnit(file, e.value, directory)])
    }

    function OutsideStep(st: State, e: Entry): Result {
      if e.kind == N_SO then
        if st.mode.Named? then File(st, e, Some(st.mode.directory))
        else if IsDirectory(Name(st, e)) then Result(st.(mode := Named(Symbol(strings, st.stringOffset, e))), [])
        else File(st, e, None)
      else if e.kind == N_UNDF && unitized then
        Result(st.(mode := Outside, stringOffset := st.nextOffset, nextOffset := e.value), [])
      else Result(st.(mode := Outside), [])
    }

    /** Lines ahead of their function wait for it. The next file ends the unit and begins
        another. */
    function UnitStep(st: State, e: Entry): Result {
      if e.kind == N_SO then
        var out := st.(mode := Outside, queue := []);
        if Name(st, e) == "" then Result(out, [EndCompilationUnit(e.value)])
        else OutsideStep(out, e).After([EndCompilationUnit(0)])
      else if e.kind == N_FUN then
        Result(st.(mode := InFunction(e.value), queue := []),
               [StartFunction(BeforeColon(Name(st, e)), e.value)] + st.queue)
      else if e.kind == N_SLINE then
        Result(st.(queue := st.queue + [ReportLine(e.value, st.file, LineNumber(e))]), [])
      else if e.kind == N_SOL then Result(st.(file := Symbol(strings, st.stringOffset, e)), [])
      else Result(st, [])
    }

    /** A nameless function entry gives the function's size; the next function's or
        file's entry gives its end. Lines are at offsets from its start. */
    function FunctionStep(st: State, e: Entry): Result
      requires st.mode.InFunction?
    {
      if e.kind == N_FUN && Name(st, e) == "" then
        Result(st.(mode := InUnit), [EndFunction(Wrap(st.mode.start + e.value))])
      else if e.kind == N_FUN || e.kind == N_SO then
        UnitStep(st.(mode := InUnit), e).After([EndFunction(e.value)])
      else if e.kind == N_SLINE then
        Result(st, [ReportLine(Wrap(st.mode.start + e.value), st.file, LineNumber(e))])
      else if e.kind == N_SOL then Result(st.(file := Symbol(strings, st.stringOffset, e)), [])
      else Result(st, [])
    }

    function Step(st: State, e: Entry): Result {
      match st.mode
      case Outside => OutsideStep(st, e)
      case Named(_) => OutsideStep(st, e)
      case InUnit => UnitStep(st, e)
      case InFunction(_) => FunctionStep(st, e)
    }

    /** What the end of the section closes. */
    function Finish(st: State): seq<Call> {
      match st.mode
      case InUnit => [EndCompilationUnit(0)]
      case InFunction(_) => [EndFunction(0), EndCompilationUnit(0)]
      case _ => []
    }

    /** The calls from entry `i` on. */
    function Rest(st: State, entries: seq<Entry>, i: nat): seq<Call>
      decreases |entries| - i
    {
      if i >= |entries| then Finish(st)
      else
        var r := Step(st, entries[i]);
        r.calls + Rest(r.state, entries, i + 1)
    }
  }

  // ----------------------------------------------------- the calling protocol

  datatype Phase = Idle | Unit | Function

  /** Functions inside units, lines inside functions. */
  function Protocol(phase: Phase, call: Call): Option<Phase> {
    match call
    case StartCompilationUnit(_, _, _) => if phase.Idle? then Some(Unit) else None
    case EndCompilationUnit(_) => if phase.Unit? then Some(Idle) else None
    case StartFunction(_, _) => if phase.Unit? then Some(Function) else None
    case EndFunction(_) => if phase.Function? then Some(Unit) else None
    case ReportLine(_, _, _) => if phase.Function? then Some(Function) else None
  }

  /** Where a sequence of calls leads, if each keeps the protocol. */
  function Nested(phase: Phase, calls: seq<Call>): Option<Phase>
    decreases |calls|
  {
    if calls == [] then Some(phase)
    else
      match Protocol(phase, calls[0])
      case None => None
      case Some(next) => Nested(next, calls[1..])
  }

  function PhaseOf(mode: Mode): Phase {
    match mode
    case InUnit => Unit
    case InFunction(_) => Function
    case _ => Idle
  }

  lemma {:induction false} NestedConcat(phase: Phase, a: seq<Call>, b: seq<Call>)
    requires Nested(phase, a).Some?
    ensures Nested(phase, a + b) == Nested(Nested(phase, a).value, b)
    decreases |a|
  {
    if a == [] {
      assert a + b == b;
    } else {
      assert (a + b)[1..] == a[1..] + b;
      NestedConcat(Protocol(phase, a[0]).value, a[1..], b);
    }
  }

  /** A prefix of calls that keep the protocol keeps it. */
  lemma {:induction false} NestedPrefix(phase: Phase, a: seq<Call>, b: seq<Call>)
    requires Nested(phase, a + b).Some?
    ensures Nested(phase, a).Some?
    decreases |a|
  {
    if a != [] {
      assert (a + b)[1..] == a[1..] + b;
      NestedPrefix(Protocol(phase, a[0]).value, a[1..], b);
    }
  }

  /** Only lines wait, and only inside a unit. */
  predicate Sane(st: State) {
    && (forall k :: 0 <= k < |st.queue| ==> st.queue[k].ReportLine?)
    && (!st.mode.InUnit? ==> st.queue == [])
  }

  lemma {:induction false} LinesNested(queue: seq<Call>)
    requires forall k :: 0 <= k < |queue| ==> queue[k].ReportLine?
    ensures Nested(Function, queue) == Some(Function)
  {
    if queue != [] {
      LinesNested(queue[1..]);
    }
  }

  lemma OutsideNested(rules: Rules, st: State, e: Entry)
    requires Sane(st) && (st.mode.Outside? || st.mode.Named?)
    ensures var r := rules.OutsideStep(st, e);
            Sane(r.state) && Nested(Idle, r.calls) == Some(PhaseOf(r.state.mode))
  {
  }

  lemma UnitNested(rules: Rules, st: State, e: Entry)
    requires Sane(st) && st.mode.InUnit?
    ensures var r := rules.UnitStep(st, e);
            Sane(r.state) && Nested(Unit, r.calls) == Some(PhaseOf(r.state.mode))
  {
    if e.kind == N_SO {
      var out := st.(mode := Outside, queue := []);
      OutsideNested(rules, out, e);
      NestedConcat(Unit, [EndCompilationUnit(0)], rules.OutsideStep(out, e).calls);
    } else if e.kind == N_FUN {
      LinesNested(st.queue);
      NestedConcat(Unit, [StartFunction(BeforeColon(rules.Name(st, e)), e.value)], st.queue);
    }
  }

  lemma StepNested(rules: Rules, st: State, e: Entry)
    requires Sane(st)
    ensures var r := rules.Step(st, e);
            Sane(r.state) && Nested(PhaseOf(st.mode), r.calls) == Some(PhaseOf(r.state.mode))
  {
    match st.mode
    case Outside => OutsideNested(rules, st, e);
    case Named(_) => OutsideNested(rules, st, e);
    case InUnit => UnitNested(rules, st, e);
    case InFunction(_) =>
      if e.kind == N_FUN || e.kind == N_SO {
        var unit := st.(mode := InUnit);
        UnitNested(rules, unit, e);
        NestedConcat(Function, [EndFunction(e.value)], rules.UnitStep(unit, e).calls);
      }
  }

  /** Whatever the entries, the calls keep the protocol and close all they open. */
  lemma {:induction false} RestNested(rules: Rules, st: State, entries: seq<Entry>, i: nat)
    requires Sane(st)
    ensures Nested(PhaseOf(st.mode), rules.Rest(st, entries, i)) == Some(Idle)
    decreases |entries| - i
  {
    if i < |entries| {
      var r := rules.Step(st, entries[i]);
      StepNested(rules, st, entries[i]);
      RestNested(rules, r.state, entries, i + 1);
      NestedConcat(PhaseOf(st.mode), r.calls, rules.Rest(r.state, entries, i + 1));
    } else {
      FinishNested(rules, st);
    }
  }

  lemma FinishNested(rules: Rules, st: State)
    ensures Nested(PhaseOf(st.mode), rules.Finish(st)) == Some(Idle)
  {
    if st.mode.InFunction? {
      NestedConcat(Function, [EndFunction(0)], [EndCompilationUnit(0)]);
    }
  }
}
