/** stabs_to_module.cc: the consumer of the calls, and the pass that infers sizes. */
module StabsToModule {
  import opened Addresses
  import opened Wrappers
  import opened Sorting
  import opened StabsTrace

  /** The size of a function that no boundary follows. */
  const FALLBACK_SIZE: nat := 0x10000000

  datatype SourceLine = SourceLine(address: nat, size: nat, file: string, number: nat)

  /** A function as collected: the state of a Function object. */
  datatype Collected = Collected(name: string, address: nat, lines: seq<SourceLine>)

  class Function {
    const name: string
    const address: nat
    var size: nat
    var lines: seq<SourceLine>

    constructor (name: string, address: nat)
      ensures this.name == name && this.address == address && size == 0 && lines == []
    {
      this.name, this.address, size, lines := name, address, 0, [];
    }

    ghost function Value(): Collected
      reads this
    {
      Collected(name, address, lines)
    }
  }

  // ------------------------------------------------------ what calls amount to

  function LeadingLines(calls: seq<Call>): (n: nat)
    ensures n <= |calls|
  {
    if calls != [] && calls[0].ReportLine? then 1 + LeadingLines(calls[1..]) else 0
  }

  function LinesOf(text: nat -> string, calls: seq<Call>): seq<SourceLine> {
    if calls == [] then []
    else (if calls[0].ReportLine? then [SourceLine(calls[0].address, 0, text(calls[0].file), calls[0].number)] else [])
         + LinesOf(text, calls[1..])
  }

  /** The functions of the calls, each with the lines reported right after its start,
      except those below the base address of their unit. */
  function Kept(text: nat -> string, base: nat, calls: seq<Call>): seq<Collected>
    decreases |calls|
  {
    if calls == [] then []
    else
      match calls[0]
      case StartCompilationUnit(_, address, _) => Kept(text, address, calls[1..])
      case EndCompilationUnit(_) => Kept(text, 0, calls[1..])
      case StartFunction(name, address) => Pending(text, base, Collected(name, address, []), calls[1..])
      case _ => Kept(text, base, calls[1..])
  }

  /** The same, inside a function with these lines so far. */
  function Pending(text: nat -> string, base: nat, current: Collected, calls: seq<Call>): seq<Collected>
    decreases |calls|
  {
    var n := LeadingLines(calls);
    (if current.address >= base then [current.(lines := current.lines + LinesOf(text, calls[..n]))] else [])
    + if n == |calls| then [] else Kept(text, base, calls[n + 1..])
  }

  /** The boundaries one call gives. */
  function Marks(call: Call): seq<nat> {
    match call
    case StartCompilationUnit(_, address, _) => [address]
    case EndCompilationUnit(address) => if address != 0 then [address] else []
    case StartFunction(_, address) => [address]
    case EndFunction(address) => if address != 0 then [address] else []
    case ReportLine(_, _, _) => []
  }

  function Boundaries(calls: seq<Call>): seq<nat> {
    if calls == [] then [] else Boundaries(calls[..|calls| - 1]) + Marks(calls[|calls| - 1])
  }

  // ------------------------------------------------------------ what sizes mean

  /** The size of a function reaches to the next boundary, if there is one. */
  ghost predicate IsSize(boundaries: seq<nat>, address: nat, size: nat) {
    if forall b | b in boundaries :: b <= address then size == FALLBACK_SIZE
    else
      && size > 0 && address + size in boundaries
      && forall b | b in boundaries && b > address :: b >= address + size
  }

  function AddressOf(l: SourceLine): int {
    l.address
  }

  function Unsized(lines: seq<SourceLine>): (r: seq<SourceLine>)
    ensures |r| == |lines|
  {
    seq(|lines|, i requires 0 <= i < |lines| => lines[i].(size := 0))
  }

  /** The lines, in order of address, each reaching to the next one's address and the
      last one to the end, modulo 2^64. */
  ghost predicate LinesMeasured(was: seq<SourceLine>, now: seq<SourceLine>, end: nat) {
    && |now| == |was|
    && SortedBy(now, AddressOf) && SameOrder(was, Unsized(now), AddressOf)
    && (forall i | 0 <= i < |now| - 1 :: now[i].size == now[i + 1].address - now[i].address)
    && (now != [] ==> now[|now| - 1].size == (end - now[|now| - 1].address) % ADDRESS_SPACE)
  }

  /** One line after the other, from here to there. */
  predicate Tile(lines: seq<SourceLine>, from: nat, to: nat)
  {
    if lines == [] then from == to
    else lines[0].address == from && Tile(lines[1..], from + lines[0].size, to)
  }

  // --------------------------------------------------------------- the consumer

  predicate Distinct<T(==)>(xs: seq<T>) {
    forall i, j :: 0 <= i < j < |xs| ==> xs[i] != xs[j]
  }

  class StabsToModule {
    const text: nat -> string
    var inCompilationUnit: bool
    var compUnitBaseAddress: nat
    var currentFunction: Function?
    var currentSourceFile: Option<string>
    var currentSourceFileName: Option<nat>
    var functions: seq<Function>
    var boundaries: seq<nat>
    /** The functions handed to the module. */
    var added: seq<Function>

    /** The file is the one the name stands for; every function's address is a boundary. */
    ghost predicate Valid()
      reads this
    {
      && currentSourceFile.Some? == inCompilationUnit
      && (currentSourceFile.Some? ==>
            currentSourceFileName.Some? && currentSourceFile.value == text(currentSourceFileName.value))
      && (currentFunction != null ==> currentFunction !in functions && currentFunction.address in boundaries)
      && Distinct(functions)
      && (forall f | f in functions :: f.address in boundaries)
    }

    ghost predicate UnsizedLines()
      reads this, functions, currentFunction
    {
      && (forall f | f in functions :: Unsized(f.lines) == f.lines)
      && (currentFunction != null ==> Unsized(currentFunction.lines) == currentFunction.lines)
    }

    ghost function Values(): seq<Collected>
      reads this, functions
    {
      seq(|functions|, i requires 0 <= i < |functions| reads this, functions => functions[i].Value())
    }

    constructor (text: nat -> string)
      ensures Valid() && UnsizedLines() && this.text == text
      ensures functions == [] && boundaries == [] && added == [] && currentFunction == null && !inCompilationUnit
      ensures compUnitBaseAddress == 0
    {
      this.text := text;
      inCompilationUnit, compUnitBaseAddress, currentFunction := false, 0, null;
      currentSourceFile, currentSourceFileName := None, None;
      functions, boundaries, added := [], [], [];
    }

    method StartCompilationUnit(name: nat, address: nat, buildDirectory: Option<nat>) returns (ok: bool)
      requires Valid() && !inCompilationUnit
      modifies this
      ensures ok && Valid() && inCompilationUnit && compUnitBaseAddress == address
      ensures boundaries == old(boundaries) + [address]
      ensures functions == old(functions) && currentFunction == old(currentFunction) && added == old(added)
    {
      inCompilationUnit := true;
      currentSourceFileName := Some(name);
      currentSourceFile := Some(text(name));
      compUnitBaseAddress := address;
      boundaries := boundaries + [address];
      return true;
    }

    method EndCompilationUnit(address: nat) returns (ok: bool)
      requires Valid() && inCompilationUnit
      modifies this
      ensures ok && Valid() && !inCompilationUnit && compUnitBaseAddress == 0
      ensures boundaries == old(boundaries) + if address != 0 then [address] else []
      ensures functions == old(functions) && currentFunction == old(currentFunction) && added == old(added)
    {
      inCompilationUnit := false;
      compUnitBaseAddress := 0;
      currentSourceFile := None;
      currentSourceFileName := None;
      if address != 0 {
        boundaries := boundaries + [address];
      }
      return true;
    }

    method StartFunction(name: string, address: nat) returns (ok: bool)
      requires Valid() && currentFunction == null
      modifies this
      ensures ok && Valid() && fresh(currentFunction)
      ensures currentFunction != null
      ensures currentFunction.Value() == Collected(name, address, []) && currentFunction.size == 0
      ensures boundaries == old(boundaries) + [address]
      ensures functions == old(functions) && added == old(added)
      ensures inCompilationUnit == old(inCompilationUnit) && compUnitBaseAddress == old(compUnitBaseAddress)
    {
      currentFunction := new Function(name, address);
      boundaries := boundaries + [address];
      assert address in boundaries;
      return true;
    }

    method EndFunction(address: nat) returns (ok: bool)
      requires Valid() && currentFunction != null
      modifies this
      ensures ok && Valid() && currentFunction == null
      ensures boundaries == old(boundaries) + if address != 0 then [address] else []
      ensures functions == old(functions) +
                           if old(currentFunction.address) >= compUnitBaseAddress then [old(currentFunction)] else []
      ensures inCompilationUnit == old(inCompilationUnit) && compUnitBaseAddress == old(compUnitBaseAddress)
      ensures added == old(added)
    {
      if currentFunction.address >= compUnitBaseAddress {
        functions := functions + [currentFunction];
      }
      currentFunction := null;
      if address != 0 {
        boundaries := boundaries + [address];
      }
      return true;
    }

    /** The name's pointer tells whether the file must be looked up again. */
    method Line(address: nat, name: nat, number: nat) returns (ok: bool)
      requires Valid() && currentFunction != null && currentSourceFile.Some?
      modifies this`currentSourceFile, this`currentSourceFileName, currentFunction
      ensures ok && Valid()
      ensures currentFunction.lines == old(currentFunction.lines) + [SourceLine(address, 0, text(name), number)]
    {
      if Some(name) != currentSourceFileName {
        currentSourceFile := Some(text(name));
        currentSourceFileName := Some(name);
      }
      currentFunction.lines := currentFunction.lines + [SourceLine(address, 0, currentSourceFile.value, number)];
      return true;
    }

    /** Where the calls so far have led. */
    ghost predicate In(phase: Phase)
      reads this
    {
      match phase
      case Idle => !inCompilationUnit && currentFunction == null
      case Unit => inCompilationUnit && currentFunction == null
      case Function => inCompilationUnit && currentFunction != null
    }

    /** The functions collected so far and those still to come. */
    ghost function Expected(rest: seq<Call>): seq<Collected>
      reads this, functions, currentFunction
    {
      Values() + if currentFunction == null then Kept(text, compUnitBaseAddress, rest)
                 else Pending(text, compUnitBaseAddress, currentFunction.Value(), rest)
    }

    ghost function Open(): set<object>
      reads this
    {
      if currentFunction == null then {} else {currentFunction}
    }

    /** A call inside a function. */
    method ReceiveInside(call: Call, ghost rest: seq<Call>)
      requires Valid() && UnsizedLines() && In(Function) && Protocol(Function, call).Some?
      modifies this, Open()
      ensures Valid() && UnsizedLines() && In(Protocol(Function, call).value)
      ensures Expected(rest) == old(Expected([call] + rest))
      ensures boundaries == old(boundaries) + Marks(call) && added == old(added)
      ensures Open() <= old(Open()) && forall f | f in functions :: f in old(functions) || f in old(Open())
    {
      var ok: bool;
      if call.EndFunction? {
        EndsPending(text, compUnitBaseAddress, currentFunction.Value(), call, rest);
        ok := EndFunction(call.address);
      } else {
        LinePending(text, compUnitBaseAddress, currentFunction.Value(), call, rest);
        ok := Line(call.address, call.file, call.number);
      }
    }

    /** One call of a sequence that keeps the protocol: what each callback asserts holds. */
    method Receive(call: Call, ghost phase: Phase, ghost rest: seq<Call>)
      requires Valid() && UnsizedLines() && In(phase) && Protocol(phase, call).Some?
      modifies this, Open()
      ensures Valid() && UnsizedLines() && In(Protocol(phase, call).value)
      ensures Expected(rest) == old(Expected([call] + rest))
      ensures boundaries == old(boundaries) + Marks(call) && added == old(added)
      ensures fresh(Open() - old(Open())) && forall f | f in functions :: f in old(functions) || f in old(Open())
    {
      if currentFunction != null {
        ReceiveInside(call, rest);
        return;
      }
      assert ([call] + rest)[1..] == rest;
      var ok: bool;
      match call
      case StartCompilationUnit(file, address, directory) =>
        ok := StartCompilationUnit(file, address, directory);
      case EndCompilationUnit(address) =>
        ok := EndCompilationUnit(address);
      case StartFunction(name, address) =>
        ok := StartFunction(name, address);
    }

    /** All the calls of a whole trace. No assertion fails, and what is collected is what
        the trace amounts to. */
    method ReceiveAll(calls: seq<Call>)
      requires Valid() && UnsizedLines() && In(Idle) && Nested(Idle, calls) == Some(Idle)
      modifies this
      ensures Valid() && UnsizedLines() && In(Idle)
      ensures Values() == old(Values()) + Kept(text, old(compUnitBaseAddress), calls)
      ensures boundaries == old(boundaries) + Boundaries(calls)
      ensures added == old(added) && forall f | f in functions :: f in old(functions) || fresh(f)
    {
      ghost var phase := Idle;
      assert calls[0..] == calls;
      for i := 0 to |calls|
        invariant Valid() && UnsizedLines() && In(phase) && fresh(Open())
        invariant Nested(phase, calls[i..]) == Some(Idle)
        invariant Expected(calls[i..]) == old(Values()) + Kept(text, old(compUnitBaseAddress), calls)
        invariant boundaries == old(boundaries) + Boundaries(calls[..i])
        invariant added == old(added) && forall f | f in functions :: f in old(functions) || fresh(f)
      {
        assert calls[i..] == [calls[i]] + calls[i + 1..];
        assert calls[..i + 1][..i] == calls[..i];
        Receive(calls[i], phase, calls[i + 1..]);
        phase := Protocol(phase, calls[i]).value;
      }
      assert calls[|calls|..] == [] && calls[..|calls|] == calls;
    }

    /** Give every collected function and its lines their sizes, and hand them over. */
    method Finalize()
      requires Valid() && UnsizedLines() && currentFunction == null
      modifies this, Members(functions)
      ensures functions == [] && |added| == |old(added)| + |old(functions)| && added[..|old(added)|] == old(added)
      ensures multiset(added[|old(added)|..]) == multiset(old(functions)) && Distinct(added[|old(added)|..])
      ensures SortedBy(added[|old(added)|..], Start)
      ensures forall f | f in old(functions) ::
                IsSize(boundaries, f.address, f.size) && LinesMeasured(old(f.lines), f.lines, f.address + f.size)
      ensures multiset(boundaries) == multiset(old(boundaries))
    {
      boundaries := Sort(boundaries, b => b);
      var sorted := Sort(functions, Start);
      SameElements(sorted, functions);
      DistinctPermuted(functions, sorted);
      assert Members(sorted) == Members(functions);
      functions := sorted;
      MeasureAll(functions, boundaries);
      added := added + functions;
      functions := [];
    }
  }

  ghost function Members(functions: seq<Function>): set<Function> {
    set f | f in functions
  }

  function Start(f: Function): int {
    f.address
  }

  /** The first element greater than `x`, in a sorted sequence. */
  method UpperBound(xs: seq<nat>, x: nat) returns (k: nat)
    requires SortedBy(xs, (b: nat) => b)
    ensures k <= |xs|
    ensures (forall i | 0 <= i < k :: xs[i] <= x) && (forall i | k <= i < |xs| :: x < xs[i])
  {
    var lo, hi := 0, |xs|;
    while lo < hi
      invariant 0 <= lo <= hi <= |xs|
      invariant (forall i | 0 <= i < lo :: xs[i] <= x) && (forall i | hi <= i < |xs| :: x < xs[i])
    {
      var mid := (lo + hi) / 2;
      if xs[mid] <= x {
        lo := mid + 1;
      } else {
        hi := mid;
      }
    }
    k := lo;
  }

  method Measure(f: Function, boundaries: seq<nat>)
    requires SortedBy(boundaries, (b: nat) => b) && Unsized(f.lines) == f.lines
    modifies f
    ensures IsSize(boundaries, f.address, f.size)
    ensures LinesMeasured(old(f.lines), f.lines, f.address + f.size)
  {
    var k := UpperBound(boundaries, f.address);
    if k < |boundaries| {
      f.size := boundaries[k] - f.address;
    } else {
      f.size := FALLBACK_SIZE;
    }
    if f.lines != [] {
      f.lines := MeasureLines(f.lines, f.address + f.size);
    }
  }

  method MeasureAll(functions: seq<Function>, boundaries: seq<nat>)
    requires SortedBy(boundaries, (b: nat) => b) && Distinct(functions)
    requires forall f | f in functions :: Unsized(f.lines) == f.lines
    modifies Members(functions)
    ensures forall f | f in functions ::
              IsSize(boundaries, f.address, f.size) && LinesMeasured(old(f.lines), f.lines, f.address + f.size)
  {
    for i := 0 to |functions|
      invariant forall j | 0 <= j < i ::
                  var f := functions[j];
                  IsSize(boundaries, f.address, f.size) && LinesMeasured(old(f.lines), f.lines, f.address + f.size)
      invariant forall j | i <= j < |functions| :: functions[j].lines == old(functions[j].lines)
    {
      assert functions[i] in functions;
      Measure(functions[i], boundaries);
    }
  }

  method MeasureLines(was: seq<SourceLine>, end: nat) returns (lines: seq<SourceLine>)
    requires was != [] && Unsized(was) == was
    ensures LinesMeasured(was, lines, end)
  {
    lines := StableSort(was, AddressOf);
    ghost var sorted := lines;
    StillUnsized(was, sorted);
    var last := |lines| - 1;
    for i := 0 to last
      invariant |lines| == |sorted| && Unsized(lines) == sorted
      invariant forall j | 0 <= j < i :: lines[j].size == lines[j + 1].address - lines[j].address
    {
      assert lines[i].address == sorted[i].address && lines[i + 1].address == sorted[i + 1].address;
      lines := lines[i := lines[i].(size := lines[i + 1].address - lines[i].address)];
    }
    lines := lines[last := lines[last].(size := (end - lines[last].address) % ADDRESS_SPACE)];
    assert Unsized(lines) == sorted;
    assert forall i | 0 <= i < |lines| :: lines[i].address == sorted[i].address;
  }

  lemma StillUnsized(was: seq<SourceLine>, now: seq<SourceLine>)
    requires Unsized(was) == was && multiset(was) == multiset(now)
    ensures Unsized(now) == now
  {
    forall i | 0 <= i < |now| ensures now[i].size == 0 {
      SameMembers(was, now, now[i]);
      var k :| 0 <= k < |was| && was[k] == now[i];
      assert Unsized(was)[k].size == 0;
    }
  }

  lemma SameElements<T>(a: seq<T>, b: seq<T>)
    requires multiset(a) == multiset(b)
    ensures forall x :: x in a <==> x in b
  {
    forall x ensures x in a <==> x in b {
      SameMembers(a, b, x);
    }
  }

  lemma DistinctPermuted<T>(a: seq<T>, b: seq<T>)
    requires Distinct(a) && multiset(a) == multiset(b)
    ensures Distinct(b)
  {
    forall i, j | 0 <= i < j < |b| ensures b[i] != b[j] {
      OnceInMultiset(a, b[i]);
      if b[i] == b[j] {
        TwiceInMultiset(b, i, j);
      }
    }
  }

  lemma EndsPending(text: nat -> string, base: nat, current: Collected, call: Call, rest: seq<Call>)
    requires call.EndFunction?
    ensures Pending(text, base, current, [call] + rest) ==
            (if current.address >= base then [current] else []) + Kept(text, base, rest)
  {
    assert ([call] + rest)[..0] == [];
    assert current.lines + [] == current.lines;
  }

  lemma LinePending(text: nat -> string, base: nat, current: Collected, call: Call, rest: seq<Call>)
    requires call.ReportLine?
    ensures Pending(text, base, current, [call] + rest) ==
            var line := SourceLine(call.address, 0, text(call.file), call.number);
            Pending(text, base, current.(lines := current.lines + [line]), rest)
  {
    var calls := [call] + rest;
    var n := LeadingLines(rest);
    assert calls[1..] == rest;
    assert calls[..n + 1] == [call] + rest[..n];
    assert ([call] + rest[..n])[1..] == rest[..n];
    var l := SourceLine(call.address, 0, text(call.file), call.number);
    assert current.lines + ([l] + LinesOf(text, rest[..n])) == (current.lines + [l]) + LinesOf(text, rest[..n]);
  }

  // ------------------------------------------------- what the sizes come to

  /** Two functions at different addresses, both of them boundaries, do not overlap, and
      neither is empty. */
  lemma SizesDisjoint(boundaries: seq<nat>, a: nat, sizeA: nat, b: nat, sizeB: nat)
    requires IsSize(boundaries, a, sizeA) && IsSize(boundaries, b, sizeB)
    requires a in boundaries && b in boundaries && a != b
    ensures sizeA > 0 && sizeB > 0 && (a + sizeA <= b || b + sizeB <= a)
  {
  }

  /** The fallback size is for the greatest boundary alone; every other function ends at
      a boundary. */
  lemma FallbackAtGreatest(boundaries: seq<nat>, address: nat, size: nat)
    requires IsSize(boundaries, address, size) && address in boundaries
    ensures address + size in boundaries || (size == FALLBACK_SIZE && forall b | b in boundaries :: b <= address)
    ensures (exists b :: b in boundaries && b > address) ==> address + size in boundaries
  {
  }

  /** When a function's last line starts inside it, its lines cover what is from the first
      line's address to the function's end, without gap or overlap. */
  lemma LinesTile(was: seq<SourceLine>, now: seq<SourceLine>, end: nat)
    requires LinesMeasured(was, now, end) && now != [] && now[|now| - 1].address <= end < ADDRESS_SPACE
    ensures Tile(now, now[0].address, end)
  {
    TileFrom(now, 0, end);
    assert now[0..] == now;
  }

  lemma {:induction false} TileFrom(lines: seq<SourceLine>, i: nat, end: nat)
    requires i < |lines| && lines[|lines| - 1].address <= end < ADDRESS_SPACE
    requires forall k | 0 <= k < |lines| - 1 :: lines[k].size == lines[k + 1].address - lines[k].address
    requires lines[|lines| - 1].size == (end - lines[|lines| - 1].address) % ADDRESS_SPACE
    ensures Tile(lines[i..], lines[i].address, end)
    decreases |lines| - i
  {
    assert lines[i..][1..] == lines[i + 1..];
    if i + 1 < |lines| {
      TileFrom(lines, i + 1, end);
    } else {
      assert lines[i + 1..] == [];
    }
  }

  /** Tiles cover an address exactly once if it is between the ends, and not otherwise. */
  lemma {:induction false} TileCovers(lines: seq<SourceLine>, from: nat, to: nat, a: nat)
    requires Tile(lines, from, to)
    ensures from <= to
    ensures Covering(lines, a) == if from <= a < to then 1 else 0
    decreases |lines|
  {
    if lines != [] {
      TileCovers(lines[1..], from + lines[0].size, to, a);
    }
  }

  /** How many of the lines cover an address. */
  function Covering(lines: seq<SourceLine>, a: nat): nat {
    if lines == [] then 0
    else (if lines[0].address <= a < lines[0].address + lines[0].size then 1 else 0) + Covering(lines[1..], a)
  }
}
