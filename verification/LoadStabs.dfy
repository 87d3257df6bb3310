/** A whole .stab section, read, collected and measured. */
module LoadStabs {
  import opened Addresses
  import opened ByteCursors
  import opened Sorting
  import opened StabsEntries
  import opened StabsTrace
  import opened StabsToModule
  import opened StabsSizes
  import M = StabsMeaning
  import opened Wrappers
  import R = StabsReader

  /** The calls a section amounts to. */
  ghost function Trace(stab: seq<Byte>, strings: Strings, layout: Layout, unitized: bool): seq<Call> {
    Rules(strings, unitized).Rest(INITIAL, layout.EntriesFrom(stab, 0), 0)
  }

  /** Functions at different addresses do not overlap, and none is empty. */
  ghost predicate NoOverlap(functions: seq<Function>)
    reads Members(functions)
  {
    && (forall f | f in functions :: f.size > 0)
    && (forall f, g | f in functions && g in functions && f.address < g.address :: f.address + f.size <= g.address)
  }

  lemma SizedApart(functions: seq<Function>, boundaries: seq<nat>)
    requires forall f | f in functions :: f.address in boundaries && IsSize(boundaries, f.address, f.size)
    ensures NoOverlap(functions)
  {
    forall f | f in functions
      ensures f.size > 0
    {
      assert f.address in boundaries && IsSize(boundaries, f.address, f.size);
    }
    forall f, g | f in functions && g in functions && f.address < g.address
      ensures f.address + f.size <= g.address
    {
      SizesDisjoint(boundaries, f.address, f.size, g.address, g.size);
    }
  }

  /** The function as collected, its lines in order and measured up to its end. */
  ghost predicate Holds(f: Function, k: Collected)
    reads f
  {
    f.name == k.name && f.address == k.address && LinesMeasured(k.lines, f.lines, f.address + f.size)
  }

  /** A handler that refuses nothing is told everything the section says. */
  method ReadAll(stab: seq<Byte>, strings: Strings, bigEndian: bool, valueSize: nat, unitized: bool)
      returns (calls: seq<Call>)
    requires IsValueSize(valueSize)
    ensures calls == Trace(stab, strings, Layout(valueSize, bigEndian), unitized)
    ensures calls == M.Section(Layout(valueSize, bigEndian).EntriesFrom(stab, 0), strings, unitized).Calls()
    ensures Nested(Idle, calls) == Some(Idle)
  {
    var recorder := new R.StabsHandler((calls: seq<Call>) => true);
    var reader := new R.StabsReader(stab, strings, bigEndian, valueSize, unitized, recorder);
    ghost var whole := Trace(stab, strings, Layout(valueSize, bigEndian), unitized);
    var ok := reader.Process(whole);
    RestNested(Rules(strings, unitized), INITIAL, Layout(valueSize, bigEndian).EntriesFrom(stab, 0), 0);
    calls := recorder.calls;
    M.TraceMeans(M.Section(Layout(valueSize, bigEndian).EntriesFrom(stab, 0), strings, unitized));
  }

  /** The functions handed over: those collected, in order, measured and apart. */
  ghost predicate Finished(handler: StabsToModule, collected: seq<Collected>, marks: seq<nat>)
    reads handler, Members(handler.added)
  {
    && multiset(handler.boundaries) == multiset(marks)
    && (exists order: seq<nat> :: Rearranged(handler.added, collected, order))
    && SortedBy(handler.added, Start) && NoOverlap(handler.added)
    && forall f | f in handler.added ::
         f.address in handler.boundaries && IsSize(handler.boundaries, f.address, f.size)
  }

  /** Each function holds one of the collected ones, and each of these is held by just one
      function, however many of them are alike. */
  ghost predicate Rearranged(functions: seq<Function>, collected: seq<Collected>, order: seq<nat>)
    reads Members(functions)
  {
    && |functions| == |order| == |collected| && Distinct(order)
    && (forall i | 0 <= i < |order| :: order[i] < |collected| && Holds(functions[i], collected[order[i]]))
    && forall k | 0 <= k < |collected| :: k in order
  }

  lemma Measured(functions: seq<Function>, collected: seq<Function>, values: seq<Collected>, boundaries: seq<nat>)
    requires Distinct(functions) && Distinct(collected) && multiset(functions) == multiset(collected)
    requires |values| == |collected| && forall i | 0 <= i < |values| :: Holds(collected[i], values[i])
    requires forall f | f in collected :: f.address in boundaries && IsSize(boundaries, f.address, f.size)
    ensures exists order: seq<nat> :: Rearranged(functions, values, order)
    ensures NoOverlap(functions)
    ensures forall f | f in functions :: f.address in boundaries && IsSize(boundaries, f.address, f.size)
  {
    SameElements(functions, collected);
    SizedApart(functions, boundaries);
    var order := Places(functions, collected);
    assert Rearranged(functions, values, order);
  }

  /** The last pass over what has been collected: everything is kept, and apart. */
  method Finish(handler: StabsToModule)
    requires handler.Valid() && handler.UnsizedLines() && handler.currentFunction == null && handler.added == []
    modifies handler, Members(handler.functions)
    ensures Finished(handler, old(handler.Values()), old(handler.boundaries))
  {
    ghost var collected, marks, values := handler.functions, handler.boundaries, handler.Values();
    handler.Finalize();
    assert handler.added[0..] == handler.added;
    SameElements(handler.boundaries, marks);
    Measured(handler.added, collected, values, handler.boundaries);
  }

  lemma Places<T>(a: seq<T>, b: seq<T>) returns (order: seq<nat>)
    requires Distinct(a) && Distinct(b) && multiset(a) == multiset(b)
    ensures |order| == |a| == |b| && Distinct(order)
    ensures forall i | 0 <= i < |order| :: order[i] < |b| && a[i] == b[order[i]]
    ensures forall k | 0 <= k < |b| :: k in order
  {
    assert |a| == |multiset(a)| == |b|;
    SameElements(a, b);
    order := seq(|a|, i requires 0 <= i < |a| => Place(b, a[i]));
    forall k | 0 <= k < |b|
      ensures k in order
    {
      assert b[k] in a;
      assert order[Place(a, b[k])] == k;
    }
  }

  ghost function Place<T>(xs: seq<T>, x: T): (i: nat)
    requires x in xs
    ensures i < |xs| && xs[i] == x
  {
    var i :| 0 <= i < |xs| && xs[i] == x; i
  }

  /** A function ends inside the address space exactly if a boundary ends it or there is
      room for the fallback size. */
  ghost predicate EndsInSpace(f: Function, boundaries: seq<nat>)
    reads f
  {
    f.address + f.size <= ADDRESS_SPACE <==>
      Ends(boundaries, f.address) || f.address <= ADDRESS_SPACE - FALLBACK_SIZE
  }

  ghost predicate AllNamed(functions: seq<Function>) {
    forall f | f in functions :: f.name != ""
  }

  lemma EndsOfTrace(functions: seq<Function>, boundaries: seq<nat>, calls: seq<Call>, valueSize: nat)
    requires IsValueSize(valueSize) && CallsFit(calls, valueSize)
    requires multiset(boundaries) == multiset(Boundaries(calls))
    requires forall f | f in functions :: f.address in boundaries && IsSize(boundaries, f.address, f.size)
    ensures forall f | f in functions :: EndsInSpace(f, boundaries)
    ensures valueSize == 4 ==> forall f | f in functions :: f.address + f.size <= ADDRESS_SPACE
  {
    SameElements(boundaries, Boundaries(calls));
    BoundariesFit(calls, valueSize);
    forall f | f in functions
      ensures EndsInSpace(f, boundaries) && (valueSize == 4 ==> f.address + f.size <= ADDRESS_SPACE)
    {
      assert f.address in boundaries && IsSize(boundaries, f.address, f.size);
      EndInSpace(boundaries, f.address, f.size);
    }
  }

  lemma NamedIff(functions: seq<Function>, collected: seq<Collected>, order: seq<nat>)
    requires Rearranged(functions, collected, order)
    ensures AllNamed(functions) <==> !HasNameless(collected)
  {
    forall k | 0 <= k < |collected|
      ensures exists f :: f in functions && f.name == collected[k].name
    {
      assert k in order;
      var i :| 0 <= i < |order| && order[i] == k;
      assert Holds(functions[i], collected[order[i]]);
    }
    forall i | 0 <= i < |functions|
      ensures exists k :: k in collected && k.name == functions[i].name
    {
      assert Holds(functions[i], collected[order[i]]);
      assert collected[order[i]] in collected;
    }
  }

  lemma {:induction false} Marked(calls: seq<Call>, c: Call)
    requires c in calls
    ensures forall m | m in Marks(c) :: m in Boundaries(calls)
  {
    if c != calls[|calls| - 1] {
      assert calls == calls[..|calls| - 1] + [calls[|calls| - 1]];
      Marked(calls[..|calls| - 1], c);
    }
  }

  /** Every function's start, and its end if that is known, are boundaries. */
  ghost predicate Bounded(s: M.Section, boundaries: seq<nat>) {
    forall i: nat | i < |s.entries| && s.Begins(i) ::
      s.Value(i) in boundaries && (M.EndOf(s, i) != 0 ==> M.EndOf(s, i) in boundaries)
  }

  lemma FunctionsBounded(s: M.Section, boundaries: seq<nat>)
    requires multiset(boundaries) == multiset(Boundaries(s.Calls()))
    ensures Bounded(s, boundaries)
  {
    SameElements(boundaries, Boundaries(s.Calls()));
    forall i: nat | i < |s.entries| && s.Begins(i)
      ensures s.Value(i) in boundaries && (M.EndOf(s, i) != 0 ==> M.EndOf(s, i) in boundaries)
    {
      M.FunctionCalled(s, i);
      MarkedBoth(s.Calls(), M.Head(s.Text(i)), s.Value(i), M.EndOf(s, i));
    }
  }

  lemma MarkedBoth(calls: seq<Call>, name: string, start: nat, end: nat)
    requires StartFunction(name, start) in calls && EndFunction(end) in calls
    ensures start in Boundaries(calls) && (end != 0 ==> end in Boundaries(calls))
  {
    Marked(calls, StartFunction(name, start));
    Marked(calls, EndFunction(end));
    assert start in Marks(StartFunction(name, start));
    assert end != 0 ==> end in Marks(EndFunction(end));
  }

  lemma TraceFits(stab: seq<Byte>, strings: Strings, layout: Layout, unitized: bool)
    requires layout.Valid()
    ensures CallsFit(Trace(stab, strings, layout, unitized), layout.valueSize)
  {
    EntriesFit(layout, stab, 0);
    RestFits(Rules(strings, unitized), INITIAL, layout.EntriesFrom(stab, 0), 0, layout.valueSize);
  }

  /** Whatever the bytes, the section is read to its end, no callback's assertion fails, and
      the functions handed over are those of its calls, apart from each other. Those with
      the fallback size may pass the end of the address space, if values have 8 bytes; and
      all have names unless the calls start a function without one. */
  method Load(stab: seq<Byte>, strings: Strings, bigEndian: bool, valueSize: nat, unitized: bool)
      returns (handler: StabsToModule)
    requires IsValueSize(valueSize)
    ensures fresh(handler)
    ensures var whole := Trace(stab, strings, Layout(valueSize, bigEndian), unitized);
            && Finished(handler, Kept(strings.at, 0, whole), Boundaries(whole))
            && (AllNamed(handler.added) <==> !KeepsNameless(0, whole))
    ensures var s := M.Section(Layout(valueSize, bigEndian).EntriesFrom(stab, 0), strings, unitized);
            Bounded(s, handler.boundaries) && Finished(handler, Kept(strings.at, 0, s.Calls()), Boundaries(s.Calls()))
    ensures forall f | f in handler.added :: EndsInSpace(f, handler.boundaries)
    ensures valueSize == 4 ==> forall f | f in handler.added :: f.address + f.size <= ADDRESS_SPACE
  {
    var calls := ReadAll(stab, strings, bigEndian, valueSize, unitized);
    TraceFits(stab, strings, Layout(valueSize, bigEndian), unitized);
    handler := Collect(calls, strings.at, valueSize);
    ghost var entries := Layout(valueSize, bigEndian).EntriesFrom(stab, 0);
    FunctionsBounded(M.Section(entries, strings, unitized), handler.boundaries);
  }

  lemma NamedUnlessStarted(functions: seq<Function>, text: nat -> string, calls: seq<Call>)
    requires Nested(Idle, calls) == Some(Idle)
    requires exists order :: Rearranged(functions, Kept(text, 0, calls), order)
    ensures AllNamed(functions) <==> !KeepsNameless(0, calls)
  {
    var order :| Rearranged(functions, Kept(text, 0, calls), order);
    NamedIff(functions, Kept(text, 0, calls), order);
    NamelessKept(text, 0, calls, Idle);
  }

  /** The consumer's part. */
  method Collect(calls: seq<Call>, text: nat -> string, ghost valueSize: nat) returns (handler: StabsToModule)
    requires Nested(Idle, calls) == Some(Idle) && IsValueSize(valueSize) && CallsFit(calls, valueSize)
    ensures fresh(handler) && Finished(handler, Kept(text, 0, calls), Boundaries(calls))
    ensures AllNamed(handler.added) <==> !KeepsNameless(0, calls)
    ensures forall f | f in handler.added :: EndsInSpace(f, handler.boundaries)
    ensures valueSize == 4 ==> forall f | f in handler.added :: f.address + f.size <= ADDRESS_SPACE
  {
    handler := new StabsToModule(text);
    handler.ReceiveAll(calls);
    assert handler.Values() == Kept(text, 0, calls) && handler.boundaries == Boundaries(calls);
    Finish(handler);
    EndsOfTrace(handler.added, handler.boundaries, calls, valueSize);
    NamedUnlessStarted(handler.added, text, calls);
  }
}
