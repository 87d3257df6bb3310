/** stabs_reader.cc: the reader, proved to make the calls of the one-entry machine. */
module StabsReader {
  import opened Addresses
  import opened Wrappers
  import opened ByteCursors
  import opened StabsEntries
  import opened StabsTrace

  /** A consumer of the calls. What it answers may depend on all it has been told; what
      it requires is the protocol that StabsToModule asserts. */
  class StabsHandler {
    const willing: seq<Call> -> bool
    var calls: seq<Call>

    constructor (willing: seq<Call> -> bool)
      ensures this.willing == willing && calls == []
    {
      this.willing, calls := willing, [];
    }

    method Handle(call: Call) returns (answer: bool)
      requires Nested(Idle, calls + [call]).Some?
      modifies this
      ensures calls == old(calls) + [call] && answer == willing(calls)
    {
      calls := calls + [call];
      answer := willing(calls);
    }

    /** Every call so far was answered with true. */
    ghost predicate Going()
      reads this
    {
      forall k :: 0 < k <= |calls| ==> willing(calls[..k])
    }

    /** Only the last call was answered with false, and these are the calls it should
        have received so far. */
    ghost predicate Stopped(whole: seq<Call>)
      reads this
    {
      && calls != [] && calls <= whole && !willing(calls)
      && forall k :: 0 < k < |calls| ==> willing(calls[..k])
    }
  }

  class StabsReader {
    const rules: Rules
    const it: EntryIterator
    const handler: StabsHandler
    var stringOffset: nat
    var nextOffset: nat
    var currentFile: nat
    var queuedLines: seq<Call>

    ghost predicate Valid()
      reads this, it, it.cursor
    {
      it.Valid()
    }

    ghost function Snapshot(mode: Mode): State
      reads this
    {
      State(mode, stringOffset, nextOffset, currentFile, queuedLines)
    }

    /** What is left to report is what the machine reports from here on. */
    ghost predicate OnCourse(mode: Mode, whole: seq<Call>)
      reads this, it, it.cursor, handler
    {
      && Valid() && handler.Going() && Sane(Snapshot(mode))
      && whole == handler.calls + rules.Rest(Snapshot(mode), it.entries, it.index)
      && Nested(Idle, whole).Some?
    }

    constructor (stab: seq<Byte>, strings: Strings, bigEndian: bool, valueSize: nat, unitized: bool,
                 handler: StabsHandler)
      requires IsValueSize(valueSize) && handler.calls == []
      ensures rules == Rules(strings, unitized) && this.handler == handler
      ensures it.entries == Layout(valueSize, bigEndian).EntriesFrom(stab, 0)
      ensures fresh(it) && fresh(it.cursor)
      ensures OnCourse(Outside, rules.Rest(INITIAL, it.entries, 0))
    {
      rules, this.handler := Rules(strings, unitized), handler;
      it := new EntryIterator(stab, bigEndian, valueSize);
      stringOffset, nextOffset, currentFile, queuedLines := 0, 0, 0, [];
      new;
      RestNested(rules, INITIAL, it.entries, 0);
    }

    /** Make a call that comes next. */
    method Report(call: Call, ghost rest: seq<Call>, ghost whole: seq<Call>) returns (answer: bool)
      requires handler.Going() && whole == handler.calls + ([call] + rest) && Nested(Idle, whole).Some?
      modifies handler
      ensures handler.calls == old(handler.calls) + [call] && whole == handler.calls + rest
      ensures if answer then handler.Going() else handler.Stopped(whole)
    {
      ghost var before := handler.calls;
      assert whole == (before + [call]) + rest;
      NestedPrefix(Idle, before + [call], rest);
      answer := handler.Handle(call);
      assert forall k :: 0 < k < |handler.calls| ==> handler.calls[..k] == before[..k];
      assert handler.calls[..|handler.calls|] == handler.calls;
    }

    method SymbolString() returns (offset: nat)
      requires Valid() && !it.atEnd
      ensures offset == Symbol(rules.strings, stringOffset, it.entries[it.index])
    {
      it.Current();
      offset := (stringOffset + it.entry.nameOffset) % ADDRESS_SPACE;
      if offset >= ADDRESS_SPACE / 2 || offset >= rules.strings.size {
        offset := 0;
      }
    }

    /** If there were any lines ahead of the function, report them now. */
    method ReportQueued(ghost rest: seq<Call>, ghost whole: seq<Call>) returns (ok: bool)
      requires handler.Going() && whole == handler.calls + (queuedLines + rest) && Nested(Idle, whole).Some?
      modifies handler
      ensures if ok then handler.Going() && whole == handler.calls + rest else handler.Stopped(whole)
    {
      assert queuedLines[0..] == queuedLines;
      for k := 0 to |queuedLines|
        invariant handler.Going() && whole == handler.calls + (queuedLines[k..] + rest)
      {
        assert queuedLines[k..] + rest == [queuedLines[k]] + (queuedLines[k + 1..] + rest);
        ok := Report(queuedLines[k], queuedLines[k + 1..] + rest, whole);
        if !ok {
          return;
        }
      }
      assert queuedLines[|queuedLines|..] + rest == rest;
      ok := true;
    }

    /** The entry has been dealt with: what is left to report begins behind it. */
    ghost predicate Taken(mode: Mode, whole: seq<Call>)
      reads this, it, it.cursor, handler
    {
      && Valid() && !it.atEnd && it.index < |it.entries| && handler.Going() && Sane(Snapshot(mode))
      && whole == handler.calls + rules.Rest(Snapshot(mode), it.entries, it.index + 1)
      && Nested(Idle, whole).Some?
    }

    /** Move on from an entry that has been dealt with. */
    method Consume(mode: Mode, ghost whole: seq<Call>)
      requires Taken(mode, whole)
      modifies it, it.cursor
      ensures OnCourse(mode, whole) && it.index == old(it.index) + 1
    {
      it.Advance();
    }

    lemma LineIsNext(start: nat, whole: seq<Call>)
      requires OnCourse(InFunction(start), whole) && !it.atEnd && it.entry.kind == N_SLINE
      ensures it.index < |it.entries|
      ensures var line := ReportLine((start + it.entry.value) % ADDRESS_SPACE, currentFile,
                                     it.entry.descriptor % 0x10000);
              whole == handler.calls + ([line] + rules.Rest(Snapshot(InFunction(start)), it.entries, it.index + 1))
    {
      it.Current();
      InsideFunction(rules, Snapshot(InFunction(start)), it.entries, it.index);
    }

    /** A line of the function, with the file in force. */
    method ProcessLine(start: nat, ghost whole: seq<Call>) returns (ok: bool)
      requires OnCourse(InFunction(start), whole) && !it.atEnd && it.entry.kind == N_SLINE
      modifies handler
      ensures if ok then Taken(InFunction(start), whole) else handler.Stopped(whole)
    {
      LineIsNext(start, whole);
      var lineAddress := (start + it.entry.value) % ADDRESS_SPACE;
      var lineNumber := it.entry.descriptor % 0x10000;
      ok := Report(ReportLine(lineAddress, currentFile, lineNumber),
                   rules.Rest(Snapshot(InFunction(start)), it.entries, it.index + 1), whole);
    }

    /** Behind a file's name the lines are that file's. */
    lemma BehindFileName(start: nat, whole: seq<Call>)
      requires OnCourse(InFunction(start), whole) && !it.atEnd && it.entry.kind == N_SOL
      ensures it.index < |it.entries|
      ensures var st := Snapshot(InFunction(start)).(file := Symbol(rules.strings, stringOffset, it.entries[it.index]));
              Sane(st) && whole == handler.calls + rules.Rest(st, it.entries, it.index + 1)
    {
      it.Current();
      InsideFunction(rules, Snapshot(InFunction(start)), it.entries, it.index);
    }

    lemma BehindOther(start: nat, whole: seq<Call>)
      requires OnCourse(InFunction(start), whole) && !it.atEnd
      requires it.entry.kind != N_SO && it.entry.kind != N_FUN && it.entry.kind != N_SLINE && it.entry.kind != N_SOL
      ensures Taken(InFunction(start), whole)
    {
      it.Current();
      InsideFunction(rules, Snapshot(InFunction(start)), it.entries, it.index);
    }

    /** A name of the file of the lines to come. */
    method ProcessFileName(start: nat, ghost whole: seq<Call>)
      requires OnCourse(InFunction(start), whole) && !it.atEnd && it.entry.kind == N_SOL
      modifies this`currentFile
      ensures Taken(InFunction(start), whole)
    {
      BehindFileName(start, whole);
      currentFile := SymbolString();
    }

    /** One entry inside a function. */
    method ProcessFunctionEntry(start: nat, ghost whole: seq<Call>) returns (ok: bool)
      requires OnCourse(InFunction(start), whole) && !it.atEnd && it.entry.kind != N_SO && it.entry.kind != N_FUN
      modifies this`currentFile, it, it.cursor, handler
      ensures if ok then OnCourse(InFunction(start), whole) && it.index == old(it.index) + 1 else handler.Stopped(whole)
    {
      if it.entry.kind == N_SLINE {
        ok := ProcessLine(start, whole);
        if !ok {
          return;
        }
      } else if it.entry.kind == N_SOL {
        ProcessFileName(start, whole);
      } else {
        BehindOther(start, whole);
      }
      Consume(InFunction(start), whole);
      ok := true;
    }

    /** The entries up to the next function's or file's. */
    method ProcessFunctionBody(start: nat, ghost whole: seq<Call>) returns (ok: bool)
      requires OnCourse(InFunction(start), whole)
      modifies this`currentFile, it, it.cursor, handler
      ensures if ok then
                && OnCourse(InFunction(start), whole) && it.index >= old(it.index)
                && (it.atEnd || it.entry.kind == N_SO || it.entry.kind == N_FUN)
              else handler.Stopped(whole)
    {
      while !it.atEnd
        invariant OnCourse(InFunction(start), whole) && it.index >= old(it.index)
        decreases |it.entries| - it.index
      {
        if it.entry.kind == N_SO || it.entry.kind == N_FUN {
          break;
        }
        ok := ProcessFunctionEntry(start, whole);
        if !ok {
          return;
        }
      }
      ok := true;
    }

    /** The end of a function, in front of whatever ends it. */
    method ProcessFunctionEnd(start: nat, ghost whole: seq<Call>) returns (ok: bool)
      requires OnCourse(InFunction(start), whole)
      requires it.atEnd || it.entry.kind == N_SO || it.entry.kind == N_FUN
      modifies it, it.cursor, handler
      ensures if ok then OnCourse(InUnit, whole) && it.index >= old(it.index) else handler.Stopped(whole)
    {
      it.Current();
      var endingAddress := 0;
      ghost var unit, i := Snapshot(InUnit), it.index;
      if !it.atEnd {
        ghost var e := it.entry;
        if it.entry.kind == N_FUN {
          var name := SymbolString();
          if rules.strings.at(name) == "" {
            endingAddress := (start + it.entry.value) % ADDRESS_SPACE;
            it.Advance();
          } else {
            endingAddress := it.entry.value;
            FunctionGivesWay(rules, Snapshot(InFunction(start)), it.entries, i);
          }
        } else {
          endingAddress := it.entry.value;
          FunctionGivesWay(rules, Snapshot(InFunction(start)), it.entries, i);
        }
      }
      assert whole == handler.calls + ([EndFunction(endingAddress)] + rules.Rest(unit, it.entries, it.index));
      ok := Report(EndFunction(endingAddress), rules.Rest(unit, it.entries, it.index), whole);
    }

    method ProcessFunction(ghost whole: seq<Call>) returns (ok: bool)
      requires OnCourse(InUnit, whole) && !it.atEnd && it.entry.kind == N_FUN
      modifies this, it, it.cursor, handler
      ensures if ok then OnCourse(InUnit, whole) && it.index > old(it.index) else handler.Stopped(whole)
    {
      it.Current();
      var functionAddress := it.entry.value;
      var stabString := SymbolString();
      var name := BeforeColon(rules.strings.at(stabString));
      ghost var next := Snapshot(InUnit).(mode := InFunction(functionAddress), queue := []);
      ghost var rest := rules.Rest(next, it.entries, it.index + 1);
      StartsFunction(rules, Snapshot(InUnit), it.entries, it.index);
      ok := Report(StartFunction(name, functionAddress), queuedLines + rest, whole);
      if !ok {
        return;
      }
      it.Advance();
      ok := ReportQueued(rest, whole);
      if !ok {
        return;
      }
      queuedLines := [];
      ok := ProcessFunctionBody(functionAddress, whole);
      if !ok {
        return;
      }
      ok := ProcessFunctionEnd(functionAddress, whole);
    }

    /** One entry inside a unit, other than the next file's. */
    method ProcessUnitEntry(ghost whole: seq<Call>) returns (ok: bool)
      requires OnCourse(InUnit, whole) && !it.atEnd && it.entry.kind != N_SO
      modifies this, it, it.cursor, handler
      ensures if ok then OnCourse(InUnit, whole) && it.index > old(it.index) else handler.Stopped(whole)
    {
      if it.entry.kind == N_FUN {
        ok := ProcessFunction(whole);
        return;
      }
      it.Current();
      if it.entry.kind == N_SLINE {
        // A line outside a function: its value is its address.
        queuedLines := queuedLines + [ReportLine(it.entry.value, currentFile, it.entry.descriptor % 0x10000)];
      } else if it.entry.kind == N_SOL {
        currentFile := SymbolString();
      }
      NoCalls(rules.Rest(Snapshot(InUnit), it.entries, it.index + 1));
      Consume(InUnit, whole);
      ok := true;
    }

    method ProcessUnitBody(ghost whole: seq<Call>) returns (ok: bool)
      requires OnCourse(InUnit, whole)
      modifies this, it, it.cursor, handler
      ensures if ok then
                OnCourse(InUnit, whole) && it.index >= old(it.index) && (it.atEnd || it.entry.kind == N_SO)
              else handler.Stopped(whole)
    {
      while !it.atEnd && it.entry.kind != N_SO
        invariant OnCourse(InUnit, whole) && it.index >= old(it.index)
        decreases |it.entries| - it.index
      {
        ok := ProcessUnitEntry(whole);
        if !ok {
          return;
        }
      }
      ok := true;
    }

    /** Where the unit ends, behind its end marker if there is one. */
    method FindUnitEnd(ghost whole: seq<Call>) returns (endingAddress: nat)
      requires OnCourse(InUnit, whole) && (it.atEnd || it.entry.kind == N_SO)
      modifies it, it.cursor
      ensures Valid() && it.index >= old(it.index)
      ensures var out := Snapshot(Outside).(queue := []);
              whole == handler.calls + ([EndCompilationUnit(endingAddress)] + rules.Rest(out, it.entries, it.index))
    {
      it.Current();
      endingAddress := 0;
      if !it.atEnd {
        var name := SymbolString();
        if rules.strings.at(name) == "" {
          endingAddress := it.entry.value;
          it.Advance();
        } else {
          UnitGivesWay(rules, Snapshot(InUnit), it.entries, it.index);
        }
      }
    }

    /** The end of a unit. */
    method ProcessUnitEnd(ghost whole: seq<Call>) returns (ok: bool)
      requires OnCourse(InUnit, whole) && (it.atEnd || it.entry.kind == N_SO)
      modifies this`queuedLines, it, it.cursor, handler
      ensures if ok then OnCourse(Outside, whole) && it.index >= old(it.index) else handler.Stopped(whole)
    {
      ghost var out := Snapshot(Outside).(queue := []);
      var endingAddress := FindUnitEnd(whole);
      ok := Report(EndCompilationUnit(endingAddress), rules.Rest(out, it.entries, it.index), whole);
      if !ok {
        return;
      }
      queuedLines := [];
    }

    /** There may be an entry whose name ends with a slash, for the build directory. */
    method ProcessDirectory(ghost whole: seq<Call>) returns (buildDirectory: Option<nat>)
      requires OnCourse(Outside, whole) && !it.atEnd && it.entry.kind == N_SO
      modifies it, it.cursor
      ensures OnCourse(Seeking(buildDirectory), whole)
      ensures if buildDirectory.Some? then it.index > old(it.index)
              else
                && it.index == old(it.index) && !it.atEnd && it.entry.kind == N_SO
                && !IsDirectory(rules.Name(Snapshot(Outside), it.entries[it.index]))
    {
      it.Current();
      var name := SymbolString();
      if IsDirectory(rules.strings.at(name)) {
        buildDirectory := Some(name);
        NoCalls(rules.Rest(Snapshot(Named(name)), it.entries, it.index + 1));
        Consume(Named(name), whole);
      } else {
        buildDirectory := None;
      }
    }

    /** Begin the unit at a file's entry, unless the name is empty. */
    method ProcessFile(buildDirectory: Option<nat>, ghost whole: seq<Call>) returns (ok: bool, begun: bool)
      requires OnCourse(Seeking(buildDirectory), whole) && !it.atEnd && it.entry.kind == N_SO
      requires buildDirectory.None? ==> !IsDirectory(rules.Name(Snapshot(Outside), it.entries[it.index]))
      modifies this`currentFile, it, it.cursor, handler
      ensures if ok then OnCourse(if begun then InUnit else Outside, whole) && it.index == old(it.index) + 1
              else handler.Stopped(whole)
    {
      it.Current();
      BeginsUnit(rules, Snapshot(Seeking(buildDirectory)), it.entries, it.index, buildDirectory);
      var name := SymbolString();
      if rules.strings.at(name) == "" {
        // A stray end marker: consume it, but report no end, for there was no beginning.
        Consume(Outside, whole);
        return true, false;
      }
      currentFile, begun := name, true;
      ok := Report(StartCompilationUnit(currentFile, it.entry.value, buildDirectory),
                   rules.Rest(Snapshot(InUnit), it.entries, it.index + 1), whole);
      if ok {
        Consume(InUnit, whole);
      }
    }

    method ProcessCompilationUnit(ghost whole: seq<Call>) returns (ok: bool)
      requires OnCourse(Outside, whole) && !it.atEnd && it.entry.kind == N_SO
      modifies this, it, it.cursor, handler
      ensures if ok then OnCourse(Outside, whole) && it.index > old(it.index) else handler.Stopped(whole)
    {
      var buildDirectory := ProcessDirectory(whole);
      if it.atEnd || it.entry.kind != N_SO {
        it.Current();
        NamedForNothing(rules, Snapshot(Seeking(buildDirectory)), it.entries, it.index);
        return true;
      }
      var begun: bool;
      ok, begun := ProcessFile(buildDirectory, whole);
      if !ok || !begun {
        return;
      }
      ok := ProcessUnitBody(whole);
      if !ok {
        return;
      }
      ok := ProcessUnitEnd(whole);
    }

    /** Read the section to its end, or to the first refusal. */
    method Process(ghost whole: seq<Call>) returns (ok: bool)
      requires OnCourse(Outside, whole)
      modifies this, it, it.cursor, handler
      ensures if ok then handler.Going() && handler.calls == whole && it.Valid() && it.index == |it.entries|
              else handler.Stopped(whole)
    {
      while !it.atEnd
        invariant OnCourse(Outside, whole)
        decreases |it.entries| - it.index
      {
        it.Current();
        if it.entry.kind == N_SO {
          ok := ProcessCompilationUnit(whole);
          if !ok {
            return;
          }
        } else {
          ProcessOther(whole);
        }
      }
      it.Current();
      ok := true;
    }

    /** An entry outside any unit: in a unitized section, a unit's header. */
    method ProcessOther(ghost whole: seq<Call>)
      requires OnCourse(Outside, whole) && !it.atEnd && it.entry.kind != N_SO
      modifies this, it, it.cursor
      ensures OnCourse(Outside, whole) && it.index > old(it.index)
    {
      it.Current();
      if it.entry.kind == N_UNDF && rules.unitized {
        stringOffset := nextOffset;
        nextOffset := it.entry.value;
      }
      NoCalls(rules.Rest(Snapshot(Outside), it.entries, it.index + 1));
      Consume(Outside, whole);
    }
  }

  /** Looking for the file's entry, with or without a build directory before it. */
  function Seeking(directory: Option<nat>): Mode {
    if directory.Some? then Named(directory.value) else Outside
  }

  lemma BeginsUnit(rules: Rules, st: State, entries: seq<Entry>, i: nat, directory: Option<nat>)
    requires st.mode == Seeking(directory) && i < |entries| && entries[i].kind == N_SO
    requires directory.None? ==> !IsDirectory(rules.Name(st, entries[i]))
    ensures if rules.Name(st, entries[i]) == ""
            then rules.Rest(st, entries, i) == rules.Rest(st.(mode := Outside), entries, i + 1)
            else
              var file := Symbol(rules.strings, st.stringOffset, entries[i]);
              rules.Rest(st, entries, i) == [StartCompilationUnit(file, entries[i].value, directory)]
                                            + rules.Rest(st.(mode := InUnit, file := file), entries, i + 1)
  {
    NoCalls(rules.Rest(st.(mode := Outside), entries, i + 1));
  }

  lemma InsideFunction(rules: Rules, st: State, entries: seq<Entry>, i: nat)
    requires st.mode.InFunction? && i < |entries| && entries[i].kind != N_SO && entries[i].kind != N_FUN
    ensures rules.Rest(st, entries, i) ==
            var e := entries[i];
            if e.kind == N_SLINE
            then [ReportLine(Wrap(st.mode.start + e.value), st.file, LineNumber(e))] + rules.Rest(st, entries, i + 1)
            else if e.kind == N_SOL
            then rules.Rest(st.(file := Symbol(rules.strings, st.stringOffset, e)), entries, i + 1)
            else rules.Rest(st, entries, i + 1)
  {
    var r := rules.FunctionStep(st, entries[i]);
    if entries[i].kind != N_SLINE {
      NoCalls(rules.Rest(r.state, entries, i + 1));
    }
  }

  lemma NoCalls(rest: seq<Call>)
    ensures [] + rest == rest
  {
  }

  /** A build directory that no file follows has no effect. */
  lemma NamedForNothing(rules: Rules, st: State, entries: seq<Entry>, i: nat)
    requires st.mode.Outside? || st.mode.Named?
    requires i < |entries| ==> entries[i].kind != N_SO
    ensures rules.Rest(st, entries, i) == rules.Rest(st.(mode := Outside), entries, i)
  {
  }

  lemma UnitGivesWay(rules: Rules, st: State, entries: seq<Entry>, i: nat)
    requires st.mode.InUnit? && i < |entries| && entries[i].kind == N_SO && rules.Name(st, entries[i]) != ""
    ensures rules.Rest(st, entries, i) ==
            [EndCompilationUnit(0)] + rules.Rest(st.(mode := Outside, queue := []), entries, i)
  {
    var r := rules.OutsideStep(st.(mode := Outside, queue := []), entries[i]);
    Joined([EndCompilationUnit(0)], r.calls, rules.Rest(r.state, entries, i + 1));
  }

  lemma FunctionGivesWay(rules: Rules, st: State, entries: seq<Entry>, i: nat)
    requires st.mode.InFunction? && i < |entries|
    requires entries[i].kind == N_SO || (entries[i].kind == N_FUN && rules.Name(st, entries[i]) != "")
    ensures rules.Rest(st, entries, i) == [EndFunction(entries[i].value)] + rules.Rest(st.(mode := InUnit), entries, i)
  {
    var r := rules.UnitStep(st.(mode := InUnit), entries[i]);
    Joined([EndFunction(entries[i].value)], r.calls, rules.Rest(r.state, entries, i + 1));
  }

  lemma StartsFunction(rules: Rules, st: State, entries: seq<Entry>, i: nat)
    requires st.mode.InUnit? && i < |entries| && entries[i].kind == N_FUN
    ensures var start := StartFunction(BeforeColon(rules.Name(st, entries[i])), entries[i].value);
            var next := st.(mode := InFunction(entries[i].value), queue := []);
            rules.Rest(st, entries, i) == [start] + (st.queue + rules.Rest(next, entries, i + 1))
  {
    var r := rules.UnitStep(st, entries[i]);
    Joined([StartFunction(BeforeColon(rules.Name(st, entries[i])), entries[i].value)], st.queue,
           rules.Rest(r.state, entries, i + 1));
  }

  lemma Joined(a: seq<Call>, b: seq<Call>, c: seq<Call>)
    ensures (a + b) + c == a + (b + c)
  {
  }
}
