/** What a sequence of entries means, read off the entries themselves: each entry's calls depend on the entries
    before it, found by looking back, and on nothing else. */
module StabsMeaning {
  import opened Addresses
  import opened Wrappers
  import opened StabsEntries
  import opened StabsTrace

  /** An offset as a signed 64-bit number, if it is inside, and none otherwise. */
  function Within(offset: nat, size: nat): nat {
    var wrapped := offset % 0x1_0000_0000_0000_0000;
    if wrapped < 0x8000_0000_0000_0000 && wrapped < size then wrapped else 0
  }

  /** The entries of a section, its strings, and whether units have headers. */
  datatype Section = Section(entries: seq<Entry>, strings: Strings, unitized: bool) {
    function Kind(i: nat): int
      requires i < |entries|
    {
      entries[i].kind
    }

    function Value(i: nat): nat
      requires i < |entries|
    {
      entries[i].value
    }

    /** The values of the unit headers ahead of the entry; only outside units are there any. */
    function Headers(i: nat): seq<nat>
      requires i <= |entries|
      decreases i, 1
    {
      if i == 0 then []
      else Headers(i - 1) + if unitized && Kind(i - 1) == 0 && !InUnit(i - 1) then [Value(i - 1)] else []
    }

    /** Where the strings of the unit at hand begin: at what the header before the last one said. */
    function Base(i: nat): nat
      requires i <= |entries|
      decreases i, 2
    {
      var h := Headers(i);
      if |h| < 2 then 0 else h[|h| - 2]
    }

    /** The offset of the entry's name. */
    function Offset(i: nat): nat
      requires i < |entries|
      decreases i, 3
    {
      Within(Base(i) + entries[i].nameOffset, strings.size)
    }

    function Text(i: nat): string
      requires i < |entries|
      decreases i, 4
    {
      strings.at(Offset(i))
    }

    /** The entry names a build directory: what comes right after a directory is a file. */
    function IsBuildDirectory(i: nat): bool
      requires i < |entries|
      decreases i, 5
    {
      && Kind(i) == 0x64 && Text(i) != "" && Text(i)[|Text(i)| - 1] == '/'
      && (i == 0 || !IsBuildDirectory(i - 1))
    }

    /** The entry begins a unit. */
    function Opens(i: nat): bool
      requires i < |entries|
      decreases i, 6
    {
      Kind(i) == 0x64 && Text(i) != "" && !IsBuildDirectory(i)
    }

    /** The last N_SO ahead of the entry began a unit. */
    function InUnit(i: nat): bool
      requires i <= |entries|
      decreases i, 0
    {
      i > 0 && if Kind(i - 1) == 0x64 then Opens(i - 1) else InUnit(i - 1)
    }

    /** The entry begins a function: it is in a unit, and does not end one of no name. */
    function Begins(i: nat): bool
      requires i < |entries|
      decreases i, 6
    {
      Kind(i) == 0x24 && InUnit(i) && !(Text(i) == "" && Function(i).Some?)
    }

    /** The function the entry is in: the last N_SO or N_FUN ahead of it, if that began one. */
    function Function(i: nat): Option<nat>
      requires i <= |entries|
      ensures Function(i).Some? ==> Function(i).value < i
      decreases i, 0
    {
      if i == 0 || Kind(i - 1) == 0x64 then None
      else if Kind(i - 1) == 0x24 then if Begins(i - 1) then Some(i - 1) else None
      else Function(i - 1)
    }

    /** The file of the lines here: the name in the last N_SO or N_SOL ahead. */
    function File(i: nat): nat
      requires i <= |entries|
      decreases i, 4
    {
      if i == 0 then 0
      else if Opens(i - 1) || (Kind(i - 1) == 0x84 && InUnit(i - 1)) then Offset(i - 1)
      else File(i - 1)
    }

    /** The descriptor without its sign. */
    function Number(i: nat): int
      requires i < |entries|
    {
      entries[i].descriptor % 0x10000
    }

    /** Lines ahead of their function: those since the last N_SO or N_FUN. */
    function Waiting(i: nat): seq<Call>
      requires i <= |entries|
    {
      if i == 0 || Kind(i - 1) == 0x64 || Kind(i - 1) == 0x24 then []
      else Waiting(i - 1) + if Kind(i - 1) == 0x44 then [ReportLine(Value(i - 1), File(i - 1), Number(i - 1))] else []
    }

    // ------------------------------------------------------------- the calls

    /** What an N_SO reports: the ends of what was open, and the unit it opens. */
    function FileCalls(i: nat): seq<Call>
      requires i < |entries|
    {
      (if Function(i).Some? then [EndFunction(Value(i))] else [])
      + (if InUnit(i) then [EndCompilationUnit(if Text(i) == "" then Value(i) else 0)] else [])
      + if Opens(i) then [StartCompilationUnit(Offset(i), Value(i), Directory(i))] else []
    }

    function Directory(i: nat): Option<nat>
      requires i < |entries|
    {
      if i > 0 && IsBuildDirectory(i - 1) then Some(Offset(i - 1)) else None
    }

    /** What an N_FUN reports: the end of the function at hand, at its size or here, and the
        function it begins, with the lines that waited for it. */
    function FunctionCalls(i: nat): seq<Call>
      requires i < |entries|
    {
      if !InUnit(i) then []
      else if Begins(i) then
        (if Function(i).Some? then [EndFunction(Value(i))] else [])
        + [StartFunction(Head(Text(i)), Value(i))]
        + if Function(i).None? then Waiting(i) else []
      else if Function(i).None? then []
      else [EndFunction((Value(Function(i).value) + Value(i)) % 0x1_0000_0000_0000_0000)]
    }

    function LineCalls(i: nat): seq<Call>
      requires i < |entries|
    {
      if Function(i).None? then []
      else [ReportLine((Value(Function(i).value) + Value(i)) % 0x1_0000_0000_0000_0000, File(i), Number(i))]
    }

    function CallsAt(i: nat): seq<Call>
      requires i < |entries|
    {
      if Kind(i) == 0x64 then FileCalls(i)
      else if Kind(i) == 0x24 then FunctionCalls(i)
      else if Kind(i) == 0x44 then LineCalls(i)
      else []
    }

    /** What the end of the section closes. */
    function LastCalls(): seq<Call> {
      (if Function(|entries|).Some? then [EndFunction(0)] else [])
      + if InUnit(|entries|) then [EndCompilationUnit(0)] else []
    }

    /** Each entry's calls, and those of the end. */
    function Parts(): (parts: seq<seq<Call>>)
      ensures |parts| == |entries| + 1
    {
      seq(|entries| + 1, i requires 0 <= i <= |entries| => if i < |entries| then CallsAt(i) else LastCalls())
    }

    function Calls(): seq<Call> {
      Concat(Parts(), 0)
    }
  }

  function Concat<T>(parts: seq<seq<T>>, i: nat): seq<T>
    requires i <= |parts|
    decreases |parts| - i
  {
    if i == |parts| then [] else parts[i] + Concat(parts, i + 1)
  }

  lemma {:induction false} InConcat<T>(parts: seq<seq<T>>, i: nat, k: nat, x: T)
    requires i <= k < |parts| && x in parts[k]
    ensures x in Concat(parts, i)
    decreases k - i
  {
    if i < k {
      InConcat(parts, i + 1, k, x);
    }
  }

  /** What is ahead of the colon. */
  function Head(s: string): (h: string)
    ensures h <= s && (forall k :: 0 <= k < |h| ==> h[k] != ':') && (|h| < |s| ==> s[|h|] == ':')
  {
    if s == "" || s[0] == ':' then "" else [s[0]] + Head(s[1..])
  }

  lemma {:induction false} HeadIsBeforeColon(s: string)
    ensures BeforeColon(s) == Head(s)
  {
    if s != "" && s[0] != ':' {
      HeadIsBeforeColon(s[1..]);
    }
  }

  // ------------------------------------------------- the machine reads just that

  /** The machine's rules for a section. */
  function RulesOf(s: Section): Rules {
    Rules(s.strings, s.unitized)
  }

  function LastHeader(s: Section, i: nat): nat
    requires i <= |s.entries|
  {
    var h := s.Headers(i);
    if h == [] then 0 else h[|h| - 1]
  }

  function ModeAt(s: Section, i: nat): Mode
    requires i <= |s.entries|
  {
    if s.Function(i).Some? then InFunction(s.Value(s.Function(i).value))
    else if s.InUnit(i) then InUnit
    else if i > 0 && s.IsBuildDirectory(i - 1) then Named(s.Offset(i - 1))
    else Outside
  }

  /** The state the machine is in ahead of the entry. */
  function StateAt(s: Section, i: nat): State
    requires i <= |s.entries|
  {
    State(ModeAt(s, i), s.Base(i), LastHeader(s, i), s.File(i),
          if s.InUnit(i) && s.Function(i).None? then s.Waiting(i) else [])
  }

  lemma {:induction false} FunctionInUnit(s: Section, i: nat)
    requires i <= |s.entries|
    ensures s.Function(i).Some? ==> s.InUnit(i)
  {
    if i > 0 && s.Kind(i - 1) != 0x64 {
      if s.Kind(i - 1) == 0x24 {
        assert s.Begins(i - 1) ==> s.InUnit(i - 1);
      } else {
        FunctionInUnit(s, i - 1);
      }
    }
  }

  lemma SymbolAt(strings: Strings, base: nat, e: Entry)
    ensures Symbol(strings, base, e) == Within(base + e.nameOffset, strings.size)
  {
    assert ADDRESS_SPACE / 2 == 0x8000_0000_0000_0000;
  }

  lemma OffsetAt(s: Section, i: nat)
    requires i < |s.entries|
    ensures Symbol(s.strings, s.Base(i), s.entries[i]) == s.Offset(i)
  {
    SymbolAt(s.strings, s.Base(i), s.entries[i]);
  }

  lemma NameAt(s: Section, i: nat, st: State)
    requires i < |s.entries| && st.stringOffset == s.Base(i)
    ensures Symbol(s.strings, st.stringOffset, s.entries[i]) == s.Offset(i)
    ensures RulesOf(s).Name(st, s.entries[i]) == s.Text(i)
  {
    OffsetAt(s, i);
  }

  lemma HeadersNext(s: Section, i: nat)
    requires i < |s.entries|
    ensures var header := s.unitized && s.Kind(i) == 0 && !s.InUnit(i);
            && s.Base(i + 1) == (if header then LastHeader(s, i) else s.Base(i))
            && LastHeader(s, i + 1) == (if header then s.Value(i) else LastHeader(s, i))
  {
  }

  lemma OtherStep(s: Section, i: nat)
    requires i < |s.entries| && s.Kind(i) != 0x64 && s.Kind(i) != 0x24 && s.Kind(i) != 0x44
    ensures RulesOf(s).Step(StateAt(s, i), s.entries[i]) == Result(StateAt(s, i + 1), s.CallsAt(i))
  {
    FunctionInUnit(s, i);
    NameAt(s, i, StateAt(s, i));
    HeadersNext(s, i);
  }

  lemma LineStep(s: Section, i: nat)
    requires i < |s.entries| && s.Kind(i) == 0x44
    ensures RulesOf(s).Step(StateAt(s, i), s.entries[i]) == Result(StateAt(s, i + 1), s.CallsAt(i))
  {
    FunctionInUnit(s, i);
    HeadersNext(s, i);
  }

  lemma FunctionAfter(s: Section, i: nat)
    requires i < |s.entries| && s.Kind(i) == 0x24
    ensures s.InUnit(i + 1) == s.InUnit(i) && s.Function(i + 1) == (if s.Begins(i) then Some(i) else None)
    ensures s.File(i + 1) == s.File(i) && s.Waiting(i + 1) == []
    ensures s.Base(i + 1) == s.Base(i) && LastHeader(s, i + 1) == LastHeader(s, i)
  {
    HeadersNext(s, i);
    assert !s.Opens(i);
  }

  lemma FunctionStep(s: Section, i: nat)
    requires i < |s.entries| && s.Kind(i) == 0x24
    ensures RulesOf(s).Step(StateAt(s, i), s.entries[i]) == Result(StateAt(s, i + 1), s.CallsAt(i))
  {
    FunctionInUnit(s, i);
    NameAt(s, i, StateAt(s, i));
    FunctionAfter(s, i);
    HeadIsBeforeColon(s.Text(i));
    if s.InUnit(i) {
      assert s.Begins(i) <==> !(s.Text(i) == "" && s.Function(i).Some?);
      if s.Begins(i) {
        BeginStep(s, i);
      }
    } else {
      assert !s.Begins(i);
      assert !s.IsBuildDirectory(i);
    }
  }

  lemma BeginStep(s: Section, i: nat)
    requires i < |s.entries| && s.Begins(i)
    ensures RulesOf(s).Step(StateAt(s, i), s.entries[i]) == Result(StateAt(s, i + 1), s.CallsAt(i))
  {
    FunctionInUnit(s, i);
    NameAt(s, i, StateAt(s, i));
    FunctionAfter(s, i);
    HeadIsBeforeColon(s.Text(i));
    var begun := [StartFunction(Head(s.Text(i)), s.Value(i))];
    if s.Function(i).Some? {
      assert [EndFunction(s.Value(i))] + (begun + []) == [EndFunction(s.Value(i))] + begun + [];
    } else {
      assert [] + begun + s.Waiting(i) == begun + s.Waiting(i);
    }
  }

  lemma FileAfter(s: Section, i: nat)
    requires i < |s.entries| && s.Kind(i) == 0x64
    ensures s.InUnit(i + 1) == s.Opens(i) && s.Function(i + 1) == None && s.Waiting(i + 1) == []
    ensures s.File(i + 1) == (if s.Opens(i) then s.Offset(i) else s.File(i))
    ensures s.Base(i + 1) == s.Base(i) && LastHeader(s, i + 1) == LastHeader(s, i)
    ensures ModeAt(s, i + 1) ==
            if s.Opens(i) then InUnit else if s.IsBuildDirectory(i) then Named(s.Offset(i)) else Outside
  {
    HeadersNext(s, i);
  }

  lemma DirectoryOutside(s: Section, i: nat)
    requires 0 < i <= |s.entries| && s.IsBuildDirectory(i - 1)
    ensures !s.InUnit(i) && s.Function(i).None?
  {
    assert !s.Opens(i - 1);
  }

  /** A file's entry outside units, or once what was open has been closed. */
  lemma FileOutside(s: Section, i: nat, st: State)
    requires i < |s.entries| && s.Kind(i) == 0x64
    requires st == StateAt(s, i).(mode := st.mode, queue := [])
    requires if i > 0 && s.IsBuildDirectory(i - 1) then st.mode == Named(s.Offset(i - 1)) else st.mode == Outside
    ensures RulesOf(s).OutsideStep(st, s.entries[i]) ==
            Result(StateAt(s, i + 1),
                   if s.Opens(i) then [StartCompilationUnit(s.Offset(i), s.Value(i), s.Directory(i))] else [])
  {
    NameAt(s, i, st);
    FileAfter(s, i);
  }

  lemma FileStep(s: Section, i: nat)
    requires i < |s.entries| && s.Kind(i) == 0x64
    ensures RulesOf(s).Step(StateAt(s, i), s.entries[i]) == Result(StateAt(s, i + 1), s.CallsAt(i))
  {
    FunctionInUnit(s, i);
    var st := StateAt(s, i);
    if i > 0 && s.IsBuildDirectory(i - 1) {
      DirectoryOutside(s, i);
      FileOutside(s, i, st);
    } else if !s.InUnit(i) {
      FileOutside(s, i, st);
    } else {
      FileInUnit(s, i, st.(mode := InUnit, queue := []));
      FileInUnit(s, i, st.(mode := InUnit));
    }
  }

  lemma FileInUnit(s: Section, i: nat, st: State)
    requires i < |s.entries| && s.Kind(i) == 0x64 && s.InUnit(i) && !(i > 0 && s.IsBuildDirectory(i - 1))
    requires st == StateAt(s, i).(mode := InUnit, queue := st.queue)
    ensures RulesOf(s).UnitStep(st, s.entries[i]) ==
            Result(StateAt(s, i + 1),
                   [EndCompilationUnit(if s.Text(i) == "" then s.Value(i) else 0)]
                   + if s.Opens(i) then [StartCompilationUnit(s.Offset(i), s.Value(i), s.Directory(i))] else [])
  {
    NameAt(s, i, st);
    FileAfter(s, i);
    FileOutside(s, i, st.(mode := Outside, queue := []));
    var end := [EndCompilationUnit(if s.Text(i) == "" then s.Value(i) else 0)];
    assert end + [] == end;
  }

  /** The machine makes at each entry the calls read off the entries. */
  lemma StepMeans(s: Section, i: nat)
    requires i < |s.entries|
    ensures RulesOf(s).Step(StateAt(s, i), s.entries[i]) == Result(StateAt(s, i + 1), s.CallsAt(i))
  {
    if s.Kind(i) == 0x64 {
      FileStep(s, i);
    } else if s.Kind(i) == 0x24 {
      FunctionStep(s, i);
    } else if s.Kind(i) == 0x44 {
      LineStep(s, i);
    } else {
      OtherStep(s, i);
    }
  }

  /** A machine that goes through these states makes these calls. */
  lemma {:induction false} GoesThrough(rules: Rules, entries: seq<Entry>, states: seq<State>, parts: seq<seq<Call>>,
                                       i: nat)
    requires |states| == |parts| == |entries| + 1 && i <= |entries|
    requires forall k: nat | k < |entries| :: rules.Step(states[k], entries[k]) == Result(states[k + 1], parts[k])
    requires parts[|entries|] == rules.Finish(states[|entries|])
    ensures rules.Rest(states[i], entries, i) == Concat(parts, i)
    decreases |entries| - i
  {
    if i < |entries| {
      GoesThrough(rules, entries, states, parts, i + 1);
    } else {
      assert Concat(parts, i + 1) == [];
    }
  }

  function States(s: Section): (states: seq<State>)
    ensures |states| == |s.entries| + 1
  {
    seq(|s.entries| + 1, i requires 0 <= i <= |s.entries| => StateAt(s, i))
  }

  lemma PartOf(s: Section, i: nat)
    requires i <= |s.entries|
    ensures s.Parts()[i] == if i < |s.entries| then s.CallsAt(i) else s.LastCalls()
  {
  }

  lemma StepOf(s: Section, i: nat)
    requires i < |s.entries|
    ensures RulesOf(s).Step(States(s)[i], s.entries[i]) == Result(States(s)[i + 1], s.Parts()[i])
  {
    StepMeans(s, i);
    PartOf(s, i);
  }

  lemma EndsOf(s: Section)
    ensures States(s)[0] == INITIAL
    ensures s.Parts()[|s.entries|] == RulesOf(s).Finish(States(s)[|s.entries|])
  {
    FunctionInUnit(s, |s.entries|);
    PartOf(s, |s.entries|);
  }

  /** The calls of a whole section. */
  lemma TraceMeans(s: Section)
    ensures RulesOf(s).Rest(INITIAL, s.entries, 0) == s.Calls()
  {
    forall k: nat | k < |s.entries|
      ensures RulesOf(s).Step(States(s)[k], s.entries[k]) == Result(States(s)[k + 1], s.Parts()[k])
    {
      StepOf(s, k);
    }
    EndsOf(s);
    GoesThrough(RulesOf(s), s.entries, States(s), s.Parts(), 0);
  }

  // ----------------------------------------------------------- one function's part

  /** The next N_SO or N_FUN from here on, or the end. */
  function NextMark(s: Section, i: nat): (j: nat)
    requires i <= |s.entries|
    ensures i <= j <= |s.entries| && (j < |s.entries| ==> s.Kind(j) == 0x64 || s.Kind(j) == 0x24)
    ensures forall k: nat | i <= k < j :: s.Kind(k) != 0x64 && s.Kind(k) != 0x24
    decreases |s.entries| - i
  {
    if i == |s.entries| || s.Kind(i) == 0x64 || s.Kind(i) == 0x24 then i else NextMark(s, i + 1)
  }

  /** Where the function that begins here ends: at its size behind its start, where the next
      one or a file begins, or unknown. */
  function EndOf(s: Section, i: nat): nat
    requires i < |s.entries|
  {
    var j := NextMark(s, i + 1);
    if j == |s.entries| then 0
    else if s.Kind(j) == 0x24 && s.Text(j) == "" then (s.Value(i) + s.Value(j)) % 0x1_0000_0000_0000_0000
    else s.Value(j)
  }

  lemma {:induction false} Inside(s: Section, i: nat, k: nat)
    requires i < |s.entries| && i < k <= NextMark(s, i + 1) && s.Begins(i)
    ensures s.Function(k) == Some(i) && s.InUnit(k)
    decreases k
  {
    if k == i + 1 {
      assert s.Function(k) == Some(i);
    } else {
      Inside(s, i, k - 1);
    }
  }

  lemma StartReads(s: Section, i: nat)
    requires i < |s.entries| && s.Begins(i)
    ensures StartFunction(Head(s.Text(i)), s.Value(i)) in s.CallsAt(i)
  {
    assert StartFunction(Head(s.Text(i)), s.Value(i)) in s.FunctionCalls(i);
  }

  lemma LineReads(s: Section, i: nat, k: nat)
    requires i < |s.entries| && s.Begins(i) && i < k < NextMark(s, i + 1)
    ensures s.CallsAt(k) ==
            if s.Kind(k) == 0x44 then
              [ReportLine((s.Value(i) + s.Value(k)) % 0x1_0000_0000_0000_0000, s.File(k), s.Number(k))]
            else []
  {
    Inside(s, i, k);
  }

  lemma EndReads(s: Section, i: nat)
    requires i < |s.entries| && s.Begins(i)
    ensures var j := NextMark(s, i + 1);
            EndFunction(EndOf(s, i)) in if j == |s.entries| then s.LastCalls() else s.CallsAt(j)
  {
    var j := NextMark(s, i + 1);
    Inside(s, i, j);
    if j < |s.entries| && s.Kind(j) == 0x24 {
      assert s.Begins(j) <==> s.Text(j) != "";
    }
  }

  /** A function's calls: its start, then its lines, each at its offset behind the start, and
      its end. */
  lemma FunctionReads(s: Section, i: nat)
    requires i < |s.entries| && s.Begins(i)
    ensures StartFunction(Head(s.Text(i)), s.Value(i)) in s.CallsAt(i)
    ensures var j := NextMark(s, i + 1);
            && (forall k: nat | i < k < j :: s.CallsAt(k) ==
                  if s.Kind(k) == 0x44 then
                    [ReportLine((s.Value(i) + s.Value(k)) % 0x1_0000_0000_0000_0000, s.File(k), s.Number(k))]
                  else [])
            && EndFunction(EndOf(s, i)) in if j == |s.entries| then s.LastCalls() else s.CallsAt(j)
  {
    StartReads(s, i);
    forall k: nat | i < k < NextMark(s, i + 1)
      ensures s.CallsAt(k) ==
              if s.Kind(k) == 0x44 then
                [ReportLine((s.Value(i) + s.Value(k)) % 0x1_0000_0000_0000_0000, s.File(k), s.Number(k))]
              else []
    {
      LineReads(s, i, k);
    }
    EndReads(s, i);
  }

  /** A function's start and, if it is known, its end are among the calls. */
  lemma FunctionCalled(s: Section, i: nat)
    requires i < |s.entries| && s.Begins(i)
    ensures StartFunction(Head(s.Text(i)), s.Value(i)) in s.Calls() && EndFunction(EndOf(s, i)) in s.Calls()
  {
    var j := NextMark(s, i + 1);
    StartReads(s, i);
    EndReads(s, i);
    PartOf(s, i);
    PartOf(s, j);
    InConcat(s.Parts(), 0, i, StartFunction(Head(s.Text(i)), s.Value(i)));
    InConcat(s.Parts(), 0, j, EndFunction(EndOf(s, i)));
  }
}
