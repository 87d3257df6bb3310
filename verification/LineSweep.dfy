/** Assigning source lines to functions: one pass over the sorted function ranges
    and the sorted lines, from lower to higher addresses. */
module LineSweep {
  import opened Wrappers
  import opened Addresses
  import opened LineCoverage
  import opened LineReports

  datatype Line = Line(extent: Extent, file: int, number: int)

  class Function {
    const address: Address
    const ranges: seq<Extent>
    var lines: seq<Line>

    constructor (address: Address, ranges: seq<Extent>)
      ensures this.address == address && this.ranges == ranges && lines == []
    {
      this.address, this.ranges, lines := address, ranges, [];
    }
  }

  class WarningReporter {
    var uncoveredFunctions: seq<Function>
    var uncoveredLines: seq<Line>

    constructor ()
      ensures uncoveredFunctions == [] && uncoveredLines == []
    {
      uncoveredFunctions, uncoveredLines := [], [];
    }
  }

  /** A range together with the function it belongs to. */
  datatype FunctionRange = FunctionRange(extent: Extent, owner: Function)

  function RangeExtents(ranges: seq<FunctionRange>): (r: seq<Extent>)
    ensures |r| == |ranges| && forall i | 0 <= i < |ranges| :: r[i] == ranges[i].extent
  {
    seq(|ranges|, i requires 0 <= i < |ranges| => ranges[i].extent)
  }

  function LineExtents(lines: seq<Line>): (r: seq<Extent>)
    ensures |r| == |lines| && forall i | 0 <= i < |lines| :: r[i] == lines[i].extent
  {
    seq(|lines|, i requires 0 <= i < |lines| => lines[i].extent)
  }

  function Owners(ranges: seq<FunctionRange>): (r: seq<Function>)
    ensures |r| == |ranges| && forall i | 0 <= i < |ranges| :: r[i] == ranges[i].owner
  {
    seq(|ranges|, i requires 0 <= i < |ranges| => ranges[i].owner)
  }

  /** A piece of a line: the line's file and number over the bytes from..to. */
  function Piece(line: Line, from: Address, to: int): Line
    requires from <= to <= ADDRESS_SPACE && to - from < ADDRESS_SPACE
  {
    Line(Extent(from, to - from), line.file, line.number)
  }

  // The next transition address.

  /** The range or line an iterator refers to, if it is not at the end. */
  function Current(xs: seq<Extent>, i: nat): Option<Extent> {
    if i < |xs| then Some(xs[i]) else None
  }

  /** It contains the current address or starts after it. */
  ghost predicate Reaches(e: Option<Extent>, current: int) {
    e.Some? ==> e.value.Proper() && current < e.value.End()
  }

  /** It neither starts nor ends strictly between the two addresses. */
  ghost predicate SteadyOver(e: Option<Extent>, current: int, target: int) {
    e.Some? ==> if e.value.address <= current then target <= e.value.End() else target <= e.value.address
  }

  ghost predicate IsEdge(e: Option<Extent>, target: int) {
    e.Some? && (target == e.value.address || target == e.value.End())
  }

  method Min(a: int, b: int) returns (m: int)
    ensures m <= a && m <= b && (m == a || m == b)
  {
    m := if a < b then a else b;
  }

  /** The end of the address space reads as zero. */
  function Unwrap(next: Address): int {
    if next == 0 then ADDRESS_SPACE else next
  }

  lemma Unwrapped(target: int, next: Address)
    requires 0 < target <= ADDRESS_SPACE && next == target % ADDRESS_SPACE
    ensures Unwrap(next) == target
  {
  }

  /** The first address after `current` where coverage changes, as a 64-bit address:
      the end of the address space reads as zero. */
  method NextTransition(range: Option<Extent>, line: Option<Extent>, current: Address) returns (next: Address)
    requires range.Some? || line.Some?
    requires Reaches(range, current) && Reaches(line, current)
    ensures current < Unwrap(next)
    ensures SteadyOver(range, current, Unwrap(next)) && SteadyOver(line, current, Unwrap(next))
    ensures IsEdge(range, Unwrap(next)) || IsEdge(line, Unwrap(next))
  {
    if range.Some? && current >= range.value.address {
      if line.Some? && current >= line.value.address {
        var rangeLeft := range.value.size - (current - range.value.address);
        var lineLeft := line.value.size - (current - line.value.address);
        var left := Min(rangeLeft, lineLeft);
        next := (current + left) % ADDRESS_SPACE;
        Unwrapped(current + left, next);
      } else {
        next := UntilStart(range.value, line, current);
      }
    } else if line.Some? && current >= line.value.address {
      next := UntilStart(line.value, range, current);
    } else {
      assert range.Some? || line.Some?;
      if range.Some? && line.Some? {
        next := Min(range.value.address, line.value.address);
      } else if range.Some? {
        next := range.value.address;
      } else {
        next := line.value.address;
      }
    }
  }

  /** The next transition, and where it is when the address space does not wrap. */
  method UnwrapTransition(range: Option<Extent>, line: Option<Extent>, current: Address)
    returns (next: Address, ghost target: int)
    requires range.Some? || line.Some?
    requires Reaches(range, current) && Reaches(line, current)
    ensures current < target <= ADDRESS_SPACE && next == target % ADDRESS_SPACE
    ensures SteadyOver(range, current, target) && SteadyOver(line, current, target)
    ensures IsEdge(range, target) || IsEdge(line, target)
  {
    next := NextTransition(range, line, current);
    target := Unwrap(next);
  }

  /** The start of the other extent if it lies in this one, otherwise this one's end. */
  method UntilStart(e: Extent, other: Option<Extent>, current: Address) returns (next: Address)
    requires Reaches(Some(e), current) && Reaches(other, current)
    requires e.address <= current && (other.Some? ==> current < other.value.address)
    ensures current < Unwrap(next)
    ensures SteadyOver(Some(e), current, Unwrap(next)) && SteadyOver(other, current, Unwrap(next))
    ensures IsEdge(Some(e), Unwrap(next)) || IsEdge(other, Unwrap(next))
  {
    if other.Some? {
      WithinCovers(e, other.value.address);
    }
    if other.Some? && Within(e, other.value.address) {
      next := other.value.address;
    } else {
      next := (e.address + e.size) % ADDRESS_SPACE;
      Unwrapped(e.End(), next);
    }
  }

  // --------------------------------------------------------------- the pass

  /** The iterators over ranges and lines, and the address the pass has come to. */
  datatype Spot = Spot(ri: nat, li: nat, current: Address)

  /** What the pass remembers for its warnings. */
  datatype Memory = Memory(lineUsed: int, functionCited: Function?, lineCited: int)

  /** What has been produced: the pieces, the functions and the lines reported. */
  datatype Work = Work(log: seq<Cut>, reports: seq<Function>, cites: seq<nat>)

  const NOTHING := Work([], [], [])

  /** What was there before: the functions' lines and the reports. */
  datatype Earlier = Earlier(base: map<Function, seq<Line>>, functions: seq<Function>, lines: seq<Line>)

  ghost predicate SoundPieces(log: seq<Cut>, ranges: seq<FunctionRange>, lines: seq<Line>) {
    Sound(log, RangeExtents(ranges), LineExtents(lines), ADDRESS_SPACE)
  }

  ghost predicate SoundPiece(cut: Cut, ranges: seq<FunctionRange>, lines: seq<Line>) {
    && cut.range < |ranges| && cut.line < |lines|
    && lines[cut.line].extent.address <= cut.from < cut.to <= ADDRESS_SPACE
    && cut.to <= lines[cut.line].extent.End()
  }

  /** The piece, if its range belongs to the function. */
  ghost function GivenTo(cut: Cut, ranges: seq<FunctionRange>, lines: seq<Line>, f: Function): seq<Line>
    requires SoundPiece(cut, ranges, lines)
  {
    if ranges[cut.range].owner == f then [Piece(lines[cut.line], cut.from, cut.to)] else []
  }

  /** The lines given to a function by the recorded pieces, in order. */
  ghost function PiecesOf(log: seq<Cut>, ranges: seq<FunctionRange>, lines: seq<Line>, f: Function): seq<Line>
    requires SoundPieces(log, ranges, lines)
  {
    if log == [] then []
    else PiecesOf(log[..|log| - 1], ranges, lines, f) + GivenTo(log[|log| - 1], ranges, lines, f)
  }

  ghost function LinesAt(cites: seq<nat>, lines: seq<Line>): seq<Line>
    requires forall k | 0 <= k < |cites| :: cites[k] < |lines|
  {
    seq(|cites|, k requires 0 <= k < |cites| => lines[cites[k]])
  }

  /** Gives a function the bytes current..next of a line; `next` may have wrapped. */
  method AddPiece(range: FunctionRange, line: Line, current: Address, next: Address, ghost target: int)
    requires current < target <= line.extent.End() && next == target % ADDRESS_SPACE
    requires target - current < ADDRESS_SPACE && target <= ADDRESS_SPACE
    modifies range.owner`lines
    ensures range.owner.lines == old(range.owner.lines) + [Piece(line, current, target)]
  {
    var l := Line(Extent(current, (next - current) % ADDRESS_SPACE), line.file, line.number);
    range.owner.lines := range.owner.lines + [l];
  }

  lemma PiecesSnoc(log: seq<Cut>, cut: Cut, ranges: seq<FunctionRange>, lines: seq<Line>, f: Function)
    requires SoundPieces(log, ranges, lines) && SoundPieces(log + [cut], ranges, lines)
    requires SoundPiece(cut, ranges, lines)
    ensures PiecesOf(log + [cut], ranges, lines, f) == PiecesOf(log, ranges, lines, f) + GivenTo(cut, ranges, lines, f)
  {
    assert (log + [cut])[..|log|] == log;
    assert (log + [cut])[|log|] == cut;
  }

  /** The earliest range that contains the address or starts after it; those skipped have
      all ended, however they overlap. */
  method SkipRanges(ranges: seq<FunctionRange>, from: nat, next: Address) returns (ri: nat)
    requires from <= |ranges| && AllProper(RangeExtents(ranges))
    ensures from <= ri && NotBehind(RangeExtents(ranges), ri, next)
    ensures forall k | from <= k < ri :: RangeExtents(ranges)[k].End() <= next
  {
    ghost var rs := RangeExtents(ranges);
    ri := from;
    while ri < |ranges| && next >= ranges[ri].extent.address && !Within(ranges[ri].extent, next)
      invariant from <= ri <= |ranges|
      invariant forall k | from <= k < ri :: rs[k].End() <= next
    {
      assert rs[ri].Proper();
      WithinCovers(rs[ri], next);
      ri := ri + 1;
    }
    if ri < |ranges| {
      assert rs[ri].Proper();
      WithinCovers(rs[ri], next);
    }
  }

  method SkipLines(lines: seq<Line>, from: nat, next: Address) returns (li: nat)
    requires from <= |lines| && AllProper(LineExtents(lines))
    ensures from <= li && NotBehind(LineExtents(lines), li, next)
    ensures forall k | from <= k < li :: LineExtents(lines)[k].End() <= next
  {
    ghost var ls := LineExtents(lines);
    li := from;
    while li < |lines| && next >= lines[li].extent.address && !Within(lines[li].extent, next)
      invariant from <= li <= |lines|
      invariant forall k | from <= k < li :: ls[k].End() <= next
    {
      assert ls[li].Proper();
      WithinCovers(ls[li], next);
      li := li + 1;
    }
    if li < |lines| {
      assert ls[li].Proper();
      WithinCovers(ls[li], next);
    }
  }

  // ---------------------------------------------------------------- warnings

  ghost predicate CitesIn(cites: seq<nat>, lines: seq<Line>) {
    forall k | 0 <= k < |cites| :: cites[k] < |lines|
  }

  /** What has been reported since the pass began. */
  ghost predicate Reporting(reporter: WarningReporter, oldFunctions: seq<Function>, oldLines: seq<Line>,
                            reports: seq<Function>, cites: seq<nat>, lines: seq<Line>)
    reads reporter
  {
    && reporter.uncoveredFunctions == oldFunctions + reports
    && CitesIn(cites, lines) && reporter.uncoveredLines == oldLines + LinesAt(cites, lines)
  }

  lemma NothingReported(reporter: WarningReporter, lines: seq<Line>)
    ensures Reporting(reporter, reporter.uncoveredFunctions, reporter.uncoveredLines, [], [], lines)
  {
    assert LinesAt([], lines) == [];
  }

  lemma LinesAtSnoc(cites: seq<nat>, j: nat, lines: seq<Line>)
    requires j < |lines| && CitesIn(cites, lines)
    ensures LinesAt(cites + [j], lines) == LinesAt(cites, lines) + [lines[j]]
  {
  }

  /** The function reported last. */
  function LastFunction(reports: seq<Function>): Function? {
    if reports == [] then null else reports[|reports| - 1]
  }

  function LastLine(cites: seq<nat>): int {
    if cites == [] then -1 else cites[|cites| - 1]
  }

  /** The line the last piece was taken from. */
  function LastUsed(log: seq<Cut>): int {
    if log == [] then -1 else log[|log| - 1].line
  }

  /** The functions reported after a stretch that starts here: one more if a range covers
      it and no line, and it was not reported last. */
  ghost function FunctionsCited(ranges: seq<FunctionRange>, lines: seq<Line>, at: Spot,
                                reports: seq<Function>): seq<Function>
    requires at.ri <= |ranges| && at.li <= |lines|
  {
    if Active(RangeExtents(ranges), at.ri, at.current) && !Active(LineExtents(lines), at.li, at.current)
    then Cited(reports, ranges[at.ri].owner) else reports
  }

  /** The lines reported after it: one more if the line covers it and no range, if that is
      no padding, and it was not reported last. */
  ghost function LinesCited(ranges: seq<FunctionRange>, lines: seq<Line>, at: Spot, log: seq<Cut>,
                            cites: seq<nat>): seq<nat>
    requires at.ri <= |ranges| && at.li <= |lines|
  {
    if Cites(log, RangeExtents(ranges), LineExtents(lines), at.ri, at.li, at.current)
    then Cited(cites, at.li) else cites
  }

  method WarnFunction(ranges: seq<FunctionRange>, lines: seq<Line>, at: Spot, reporter: WarningReporter,
                      lastFunctionCited: Function?, ghost reports: seq<Function>, ghost before: seq<Function>)
    returns (functionCited: Function?)
    requires at.ri <= |ranges| && at.li <= |lines|
    requires reporter.uncoveredFunctions == before + reports && lastFunctionCited == LastFunction(reports)
    modifies reporter`uncoveredFunctions
    ensures functionCited == LastFunction(FunctionsCited(ranges, lines, at, reports))
    ensures reporter.uncoveredFunctions == before + FunctionsCited(ranges, lines, at, reports)
  {
    functionCited := lastFunctionCited;
    if at.ri < |ranges| && at.current >= ranges[at.ri].extent.address {
      if !(at.li < |lines| && at.current >= lines[at.li].extent.address) {
        if ranges[at.ri].owner != lastFunctionCited {
          reporter.uncoveredFunctions := reporter.uncoveredFunctions + [ranges[at.ri].owner];
          functionCited := ranges[at.ri].owner;
        }
      }
    }
  }

  method WarnLine(ranges: seq<FunctionRange>, lines: seq<Line>, at: Spot, reporter: WarningReporter,
                  lastLineUsed: int, lastLineCited: int,
                  ghost log: seq<Cut>, ghost cites: seq<nat>, ghost before: seq<Line>)
    returns (lineCited: int)
    requires Placed(ranges, lines, at)
    requires lastLineUsed == LastUsed(log) && lastLineCited == LastLine(cites)
    requires CitesIn(cites, lines) && reporter.uncoveredLines == before + LinesAt(cites, lines)
    modifies reporter`uncoveredLines
    ensures var cites' := LinesCited(ranges, lines, at, log, cites);
            && lineCited == LastLine(cites')
            && CitesIn(cites', lines) && reporter.uncoveredLines == before + LinesAt(cites', lines)
  {
    lineCited := lastLineCited;
    if !(at.ri < |ranges| && at.current >= ranges[at.ri].extent.address)
       && at.li < |lines| && at.current >= lines[at.li].extent.address
    {
      var line := lines[at.li].extent;
      ghost var rs := RangeExtents(ranges);
      assert at.ri < |rs| ==> rs[at.ri].address > at.current;
      if at.li != lastLineCited
         && !(at.ri < |ranges| && at.li == lastLineUsed
              && (ranges[at.ri].extent.address - line.address) % ADDRESS_SPACE == line.size)
      {
        reporter.uncoveredLines := reporter.uncoveredLines + [lines[at.li]];
        LinesAtSnoc(cites, at.li, lines);
        lineCited := at.li;
      }
    }
  }

  ghost predicate ProperInput(ranges: seq<FunctionRange>, lines: seq<Line>) {
    AllProper(RangeExtents(ranges)) && AllProper(LineExtents(lines))
  }

  /** What the pass has produced, in terms of the ranges and the lines. */
  ghost predicate Assigned(done: Work, ranges: seq<FunctionRange>, lines: seq<Line>, current: int) {
    var rs, ls := RangeExtents(ranges), LineExtents(lines);
    && Produced(done.log, done.reports, done.cites, Owners(ranges), rs, ls, current)
    && (Ordered(rs) && Ordered(ls) ==> InTurn(done.reports, Owners(ranges), rs, ls, current))
  }

  /** Each function has the lines it had in `base` and then its pieces. */
  ghost predicate HoldsPieces(base: map<Function, seq<Line>>, log: seq<Cut>, ranges: seq<FunctionRange>,
                              lines: seq<Line>)
    reads (set r | r in ranges :: r.owner)`lines
  {
    && SoundPieces(log, ranges, lines)
    && forall i | 0 <= i < |ranges| :: HoldsItsPieces(ranges[i].owner, base, log, ranges, lines)
  }

  ghost predicate HoldsItsPieces(f: Function, base: map<Function, seq<Line>>, log: seq<Cut>,
                                 ranges: seq<FunctionRange>, lines: seq<Line>)
    requires SoundPieces(log, ranges, lines)
    reads f`lines
  {
    f in base && f.lines == base[f] + PiecesOf(log, ranges, lines, f)
  }

  lemma GaveOne(f: Function, was: seq<Line>, base: map<Function, seq<Line>>, log: seq<Cut>, cut: Cut,
                ranges: seq<FunctionRange>, lines: seq<Line>)
    requires SoundPieces(log, ranges, lines) && SoundPieces(log + [cut], ranges, lines)
    requires SoundPiece(cut, ranges, lines)
    requires f in base && was == base[f] + PiecesOf(log, ranges, lines, f)
    ensures was + GivenTo(cut, ranges, lines, f) == base[f] + PiecesOf(log + [cut], ranges, lines, f)
  {
    PiecesSnoc(log, cut, ranges, lines, f);
  }

  /** The pieces once the bytes current..target have been dealt with. */
  ghost function Given(ranges: seq<FunctionRange>, lines: seq<Line>, at: Spot, target: int, log: seq<Cut>): seq<Cut> {
    LogStep(log, RangeExtents(ranges), LineExtents(lines), at.ri, at.li, at.current, target)
  }

  /** There are such bytes, and nothing starts or ends among them. */
  ghost predicate SteadyUpTo(ranges: seq<FunctionRange>, lines: seq<Line>, at: Spot, target: int) {
    && at.current < target <= ADDRESS_SPACE
    && Steady(RangeExtents(ranges), at.ri, at.current, target) && Steady(LineExtents(lines), at.li, at.current, target)
  }

  /** Gives the bytes current..target of the line to the function. */
  method GivePiece(ranges: seq<FunctionRange>, lines: seq<Line>, at: Spot, next: Address,
                   ghost target: int, ghost log: seq<Cut>, ghost base: map<Function, seq<Line>>)
    requires ProperInput(ranges, lines) && SteadyUpTo(ranges, lines, at, target) && next == target % ADDRESS_SPACE
    requires Active(RangeExtents(ranges), at.ri, at.current) && Active(LineExtents(lines), at.li, at.current)
    requires Sound(log, RangeExtents(ranges), LineExtents(lines), at.current) && Ascending(log)
    requires HoldsPieces(base, log, ranges, lines)
    modifies (set r | r in ranges :: r.owner)`lines
    ensures HoldsPieces(base, log + [Cut(at.ri, at.li, at.current, target)], ranges, lines)
  {
    ghost var cut := Cut(at.ri, at.li, at.current, target);
    assert SoundPieces(log + [cut], ranges, lines) by {
      SoundStep(log, RangeExtents(ranges), LineExtents(lines), at.ri, at.li, at.current, target);
    }
    assert LineExtents(lines)[at.li].Proper();
    AddPiece(ranges[at.ri], lines[at.li], at.current, next, target);
    forall i | 0 <= i < |ranges| ensures HoldsItsPieces(ranges[i].owner, base, log + [cut], ranges, lines) {
      var f := ranges[i].owner;
      assert old(HoldsItsPieces(f, base, log, ranges, lines));
      GaveOne(f, old(f.lines), base, log, cut, ranges, lines);
    }
  }

  /** Gives the piece current..target, if there is one, to its function. */
  method Give(ranges: seq<FunctionRange>, lines: seq<Line>, at: Spot, next: Address, lastLineUsed: int,
              ghost target: int, ghost log: seq<Cut>, ghost base: map<Function, seq<Line>>)
    returns (lineUsed: int)
    requires ProperInput(ranges, lines) && SteadyUpTo(ranges, lines, at, target) && next == target % ADDRESS_SPACE
    requires at.ri <= |ranges| && at.li <= |lines|
    requires Sound(log, RangeExtents(ranges), LineExtents(lines), at.current) && Ascending(log)
    requires lastLineUsed == LastUsed(log) && HoldsPieces(base, log, ranges, lines)
    modifies (set r | r in ranges :: r.owner)`lines
    ensures lineUsed == LastUsed(Given(ranges, lines, at, target, log))
    ensures HoldsPieces(base, Given(ranges, lines, at, target, log), ranges, lines)
  {
    lineUsed := lastLineUsed;
    if at.ri < |ranges| && at.current >= ranges[at.ri].extent.address
       && at.li < |lines| && at.current >= lines[at.li].extent.address
    {
      GivePiece(ranges, lines, at, next, target, log, base);
      lineUsed := at.li;
    }
  }

  ghost function AllPoints(ranges: seq<FunctionRange>, lines: seq<Line>): (r: set<int>)
    ensures |r| <= 2 * (|ranges| + |lines|)
  {
    Points(RangeExtents(ranges)) + Points(LineExtents(lines))
  }

  /** The position and the iterators. */
  ghost predicate Stands(ranges: seq<FunctionRange>, lines: seq<Line>, at: Spot) {
    && Standing(RangeExtents(ranges), LineExtents(lines), at.ri, at.li, at.current)
    && at.current in AllPoints(ranges, lines)
  }

  ghost predicate Rising(cites: seq<nat>) {
    forall i, j | 0 <= i < j < |cites| :: cites[i] < cites[j]
  }

  /** No warning follows itself, and a line is not reported twice at all. */
  ghost predicate NoRepeats(done: Work, li: nat) {
    NoneTwiceRunning(done.reports) && Rising(done.cites) && LastLine(done.cites) <= li
  }

  /** What the pass remembers is the last it did. */
  ghost predicate Remembers(memory: Memory, done: Work) {
    memory == Memory(LastUsed(done.log), LastFunction(done.reports), LastLine(done.cites))
  }

  /** The iterators are at ranges and lines that contain the address or start after it. */
  ghost predicate Placed(ranges: seq<FunctionRange>, lines: seq<Line>, at: Spot) {
    && ProperInput(ranges, lines)
    && NotBehind(RangeExtents(ranges), at.ri, at.current) && NotBehind(LineExtents(lines), at.li, at.current)
  }

  /** The pass may take a transition here. */
  ghost predicate Underway(ranges: seq<FunctionRange>, lines: seq<Line>, at: Spot, done: Work) {
    && at.current < MAX_ADDRESS && Stands(ranges, lines, at)
    && Sound(done.log, RangeExtents(ranges), LineExtents(lines), at.current)
    && Assigned(done, ranges, lines, at.current)
  }

  /** What one transition does to the pieces and the reports. */
  ghost function Next(ranges: seq<FunctionRange>, lines: seq<Line>, at: Spot, target: int, done: Work): Work
    requires at.ri <= |ranges| && at.li <= |lines|
  {
    Work(Given(ranges, lines, at, target, done.log), FunctionsCited(ranges, lines, at, done.reports),
         LinesCited(ranges, lines, at, done.log, done.cites))
  }

  /** The transition address: an edge, and none before it. */
  ghost predicate Turns(ranges: seq<FunctionRange>, lines: seq<Line>, at: Spot, target: int) {
    && SteadyUpTo(ranges, lines, at, target)
    && (IsEdge(Current(RangeExtents(ranges), at.ri), target) || IsEdge(Current(LineExtents(lines), at.li), target))
  }

  lemma NextKeeps(ranges: seq<FunctionRange>, lines: seq<Line>, at: Spot, target: int, done: Work)
    requires Underway(ranges, lines, at, done) && Turns(ranges, lines, at, target)
    ensures var done' := Next(ranges, lines, at, target, done);
            && Sound(done'.log, RangeExtents(ranges), LineExtents(lines), target)
            && Assigned(done', ranges, lines, if target < MAX_ADDRESS then target else MAX_ADDRESS)
  {
    var done' := Next(ranges, lines, at, target, done);
    var rs, ls := RangeExtents(ranges), LineExtents(lines);
    var upto := if target < MAX_ADDRESS then target else MAX_ADDRESS;
    ProducedStep(done.log, done.reports, done'.reports, done.cites, done'.cites, Owners(ranges), rs, ls,
                 at.ri, at.li, at.current, target, upto);
    if Ordered(rs) && Ordered(ls) {
      InTurnStep(done.reports, Owners(ranges), rs, ls, at.ri, at.li, at.current, target, upto);
    }
  }

  lemma NextNoRepeats(ranges: seq<FunctionRange>, lines: seq<Line>, at: Spot, target: int, done: Work)
    requires at.ri <= |ranges| && at.li <= |lines| && NoRepeats(done, at.li)
    ensures NoRepeats(Next(ranges, lines, at, target, done), at.li)
  {
  }

  /** The warnings due at `current`. */
  method Warn(ranges: seq<FunctionRange>, lines: seq<Line>, at: Spot, reporter: WarningReporter, memory: Memory,
              ghost done: Work, ghost before: Earlier)
    returns (functionCited: Function?, lineCited: int)
    requires Placed(ranges, lines, at) && Remembers(memory, done)
    requires Reporting(reporter, before.functions, before.lines, done.reports, done.cites, lines)
    modifies reporter
    ensures var reports, cites := FunctionsCited(ranges, lines, at, done.reports),
                                  LinesCited(ranges, lines, at, done.log, done.cites);
            && functionCited == LastFunction(reports) && lineCited == LastLine(cites)
            && Reporting(reporter, before.functions, before.lines, reports, cites, lines)
  {
    lineCited := WarnLine(ranges, lines, at, reporter, memory.lineUsed, memory.lineCited,
                          done.log, done.cites, before.lines);
    functionCited := WarnFunction(ranges, lines, at, reporter, memory.functionCited, done.reports, before.functions);
  }

  /** Where the pass goes next. */
  method Turn(ranges: seq<FunctionRange>, lines: seq<Line>, at: Spot) returns (next: Address, ghost target: int)
    requires Placed(ranges, lines, at) && (at.ri < |ranges| || at.li < |lines|)
    ensures next == target % ADDRESS_SPACE && Turns(ranges, lines, at, target)
  {
    next, target := UnwrapTransition(if at.ri < |ranges| then Some(ranges[at.ri].extent) else None,
                                     if at.li < |lines| then Some(lines[at.li].extent) else None, at.current);
  }

  /** The memory, the functions' lines and the reports are those of the work done. */
  ghost predicate Reflects(ranges: seq<FunctionRange>, lines: seq<Line>, reporter: WarningReporter, memory: Memory,
                           done: Work, before: Earlier)
    reads reporter, (set r | r in ranges :: r.owner)`lines
  {
    && Remembers(memory, done) && HoldsPieces(before.base, done.log, ranges, lines)
    && Reporting(reporter, before.functions, before.lines, done.reports, done.cites, lines)
  }

  /** The state of coverage at `current`: gives the bytes up to the next transition
      to their function, or warns. */
  method Transition(ranges: seq<FunctionRange>, lines: seq<Line>, at: Spot, reporter: WarningReporter, memory: Memory,
                    next: Address, ghost target: int, ghost done: Work, ghost before: Earlier)
    returns (memory': Memory)
    requires Placed(ranges, lines, at) && SteadyUpTo(ranges, lines, at, target) && next == target % ADDRESS_SPACE
    requires Sound(done.log, RangeExtents(ranges), LineExtents(lines), at.current) && Ascending(done.log)
    requires Reflects(ranges, lines, reporter, memory, done, before)
    modifies reporter, (set r | r in ranges :: r.owner)`lines
    ensures Reflects(ranges, lines, reporter, memory', Next(ranges, lines, at, target, done), before)
  {
    var functionCited: Function?, lineCited: int;
    functionCited, lineCited := Warn(ranges, lines, at, reporter, memory, done, before);
    var lineUsed := Give(ranges, lines, at, next, memory.lineUsed, target, done.log, before.base);
    memory' := Memory(lineUsed, functionCited, lineCited);
  }

  /** The address where the pass starts: the first start of a range or line. */
  method FirstAddress(ranges: seq<FunctionRange>, lines: seq<Line>) returns (current: Address)
    requires |ranges| > 0 || |lines| > 0
    requires ProperInput(ranges, lines)
    ensures |ranges| > 0 ==> current <= ranges[0].extent.address
    ensures |lines| > 0 ==> current <= lines[0].extent.address
    ensures Stands(ranges, lines, Spot(0, 0, current))
  {
    ghost var rs, ls := RangeExtents(ranges), LineExtents(lines);
    assert |rs| > 0 ==> rs[0].Proper() && rs[0].address in Points(rs);
    assert |ls| > 0 ==> ls[0].Proper() && ls[0].address in Points(ls);
    if |ranges| > 0 && |lines| > 0 {
      current := Min(ranges[0].extent.address, lines[0].extent.address);
    } else if |lines| > 0 {
      current := lines[0].extent.address;
    } else {
      current := ranges[0].extent.address;
    }
  }

  lemma EdgeIsPoint(ranges: seq<FunctionRange>, lines: seq<Line>, at: Spot, target: int)
    requires at.ri <= |ranges| && at.li <= |lines| && Turns(ranges, lines, at, target)
    ensures target in AllPoints(ranges, lines)
  {
  }

  /** Moves both iterators past everything that ends by the next address. */
  method Advance(ranges: seq<FunctionRange>, lines: seq<Line>, at: Spot, next: Address) returns (onward: Spot)
    requires Stands(ranges, lines, at) && Turns(ranges, lines, at, next)
    ensures Stands(ranges, lines, onward) && onward.current == next && at.li <= onward.li
  {
    EdgeIsPoint(ranges, lines, at, next);
    var ri := SkipRanges(ranges, at.ri, next);
    var li := SkipLines(lines, at.li, next);
    onward := Spot(ri, li, next);
  }

  /** The loop invariant of the pass. */
  ghost predicate Going(ranges: seq<FunctionRange>, lines: seq<Line>, at: Spot, reporter: WarningReporter,
                        memory: Memory,
                        done: Work, before: Earlier)
    reads reporter, (set r | r in ranges :: r.owner)`lines
  {
    && Underway(ranges, lines, at, done) && NoRepeats(done, at.li)
    && Reflects(ranges, lines, reporter, memory, done, before)
  }

  /** What holds when the pass has come to its end. */
  ghost predicate Over(ranges: seq<FunctionRange>, lines: seq<Line>, reporter: WarningReporter, done: Work,
                       before: Earlier)
    reads reporter, (set r | r in ranges :: r.owner)`lines
  {
    && Assigned(done, ranges, lines, MAX_ADDRESS) && NoneTwiceRunning(done.reports) && Rising(done.cites)
    && HoldsPieces(before.base, done.log, ranges, lines)
    && Reporting(reporter, before.functions, before.lines, done.reports, done.cites, lines)
  }

  lemma RoundLast(ranges: seq<FunctionRange>, lines: seq<Line>, at: Spot, target: int, reporter: WarningReporter,
                  memory: Memory, done: Work, before: Earlier)
    requires Underway(ranges, lines, at, done) && NoRepeats(done, at.li)
    requires Turns(ranges, lines, at, target) && MAX_ADDRESS <= target
    requires Reflects(ranges, lines, reporter, memory, Next(ranges, lines, at, target, done), before)
    ensures Over(ranges, lines, reporter, Next(ranges, lines, at, target, done), before)
  {
    NextKeeps(ranges, lines, at, target, done);
    NextNoRepeats(ranges, lines, at, target, done);
  }

  lemma RoundNext(ranges: seq<FunctionRange>, lines: seq<Line>, at: Spot, onward: Spot, reporter: WarningReporter,
                  memory: Memory, done: Work, before: Earlier)
    requires Underway(ranges, lines, at, done) && NoRepeats(done, at.li)
    requires Turns(ranges, lines, at, onward.current) && onward.current < MAX_ADDRESS
    requires Stands(ranges, lines, onward) && at.li <= onward.li
    requires Reflects(ranges, lines, reporter, memory, Next(ranges, lines, at, onward.current, done), before)
    ensures Going(ranges, lines, onward, reporter, memory, Next(ranges, lines, at, onward.current, done), before)
  {
    NextKeeps(ranges, lines, at, onward.current, done);
    NextNoRepeats(ranges, lines, at, onward.current, done);
  }

  /** One round of the pass: a transition, and the iterators moved past it. The
      pass stops at the end of the address space. */
  method Round(ranges: seq<FunctionRange>, lines: seq<Line>, at: Spot, reporter: WarningReporter, memory: Memory,
               ghost done: Work, ghost before: Earlier)
    returns (stop: bool, onward: Spot, memory': Memory, ghost done': Work)
    requires at.ri < |ranges| || at.li < |lines|
    requires Going(ranges, lines, at, reporter, memory, done, before)
    modifies reporter, (set r | r in ranges :: r.owner)`lines
    ensures if stop then Over(ranges, lines, reporter, done', before)
            else at.current < onward.current && Going(ranges, lines, onward, reporter, memory', done', before)
  {
    InFirstOrAfter(ranges, lines, at);
    assert at.ri < |ranges| ==> at.current < ranges[at.ri].extent.address || Within(ranges[at.ri].extent, at.current);
    assert at.li < |lines| ==> at.current < lines[at.li].extent.address || Within(lines[at.li].extent, at.current);
    var next: Address;
    ghost var target;
    next, target := Turn(ranges, lines, at);
    memory' := Transition(ranges, lines, at, reporter, memory, next, target, done, before);
    done' := Next(ranges, lines, at, target, done);
    Unwrapped(target, next);
    if next == 0 || next == MAX_ADDRESS {
      RoundLast(ranges, lines, at, target, reporter, memory', done, before);
      return true, at, memory', done';
    }
    onward := Advance(ranges, lines, at, next);
    assert next > at.current;
    RoundNext(ranges, lines, at, onward, reporter, memory', done, before);
    stop := false;
  }

  lemma NothingInTurn(owners: seq<Function>, rs: seq<Extent>, ls: seq<Extent>, current: int)
    requires |owners| == |rs| && Produced([], [], [], owners, rs, ls, current)
    ensures Ordered(rs) && Ordered(ls) ==> InTurn([], owners, rs, ls, current)
  {
    if Ordered(rs) && Ordered(ls) {
      InTurnAtStart(owners, rs, ls, current);
    }
  }

  lemma NothingDue(ranges: seq<FunctionRange>, lines: seq<Line>, current: Address)
    requires ProperInput(ranges, lines)
    requires |ranges| > 0 ==> current <= ranges[0].extent.address
    requires |lines| > 0 ==> current <= lines[0].extent.address
    ensures Assigned(NOTHING, ranges, lines, current)
  {
    var rs, ls := RangeExtents(ranges), LineExtents(lines);
    ProducedAtStart(Owners(ranges), rs, ls, current);
    NothingInTurn(Owners(ranges), rs, ls, current);
  }

  lemma NotBegun(ranges: seq<FunctionRange>, lines: seq<Line>, current: Address)
    requires Stands(ranges, lines, Spot(0, 0, current)) && current < MAX_ADDRESS
    requires Assigned(NOTHING, ranges, lines, current)
    ensures Underway(ranges, lines, Spot(0, 0, current), NOTHING)
  {
  }

  lemma Begun(ranges: seq<FunctionRange>, lines: seq<Line>, start: Address, reporter: WarningReporter,
              base: map<Function, seq<Line>>)
    requires Underway(ranges, lines, Spot(0, 0, start), NOTHING) && HoldsPieces(base, [], ranges, lines)
    ensures Going(ranges, lines, Spot(0, 0, start), reporter, Memory(-1, null, -1), NOTHING,
                  Earlier(base, reporter.uncoveredFunctions, reporter.uncoveredLines))
  {
    NothingReported(reporter, lines);
  }

  lemma Ended(ranges: seq<FunctionRange>, lines: seq<Line>, at: Spot, reporter: WarningReporter, memory: Memory,
              done: Work, before: Earlier)
    requires Going(ranges, lines, at, reporter, memory, done, before) && |ranges| <= at.ri && |lines| <= at.li
    ensures Over(ranges, lines, reporter, done, before)
  {
    var rs, ls := RangeExtents(ranges), LineExtents(lines);
    ProducedToEnd(done.log, done.reports, done.cites, Owners(ranges), rs, ls, at.current);
    if Ordered(rs) && Ordered(ls) {
      InTurnToEnd(done.reports, Owners(ranges), rs, ls, at.current);
    }
  }

  /** One pass over sorted ranges and lines. The pieces are true, ascending and
      disjoint whatever the input, and no line is reported twice; when neither the
      ranges nor the lines overlap the pieces are all there are, and the warnings are
      exactly those due. The pass stops after at most as many transitions as there are
      starts and ends. */
  method Sweep(ranges: seq<FunctionRange>, lines: seq<Line>, reporter: WarningReporter,
               ghost base: map<Function, seq<Line>>)
    returns (ghost done: Work, ghost steps: nat)
    requires ProperInput(ranges, lines)
    requires HoldsPieces(base, [], ranges, lines)
    modifies reporter, (set r | r in ranges :: r.owner)`lines
    ensures Over(ranges, lines, reporter, done,
                 Earlier(base, old(reporter.uncoveredFunctions), old(reporter.uncoveredLines)))
    ensures steps <= 2 * (|ranges| + |lines|)
  {
    done, steps := NOTHING, 0;
    NothingReported(reporter, lines);
    if |ranges| == 0 && |lines| == 0 {
      NothingDue(ranges, lines, MAX_ADDRESS);
      return;
    }
    var current := FirstAddress(ranges, lines);
    NothingDue(ranges, lines, current);
    if current == MAX_ADDRESS {
      return;
    }
    NotBegun(ranges, lines, current);
    done, steps := SweepFrom(ranges, lines, current, reporter, base);
  }

  method SweepFrom(ranges: seq<FunctionRange>, lines: seq<Line>, start: Address, reporter: WarningReporter,
                   ghost base: map<Function, seq<Line>>)
    returns (ghost done: Work, ghost steps: nat)
    requires Underway(ranges, lines, Spot(0, 0, start), NOTHING)
    requires HoldsPieces(base, [], ranges, lines)
    modifies reporter, (set r | r in ranges :: r.owner)`lines
    ensures Over(ranges, lines, reporter, done,
                 Earlier(base, old(reporter.uncoveredFunctions), old(reporter.uncoveredLines)))
    ensures steps <= 2 * (|ranges| + |lines|)
  {
    done, steps := NOTHING, 0;
    ghost var points := AllPoints(ranges, lines);
    ghost var before := Earlier(base, reporter.uncoveredFunctions, reporter.uncoveredLines);
    var at, memory := Spot(0, 0, start), Memory(-1, null, -1);
    Begun(ranges, lines, start, reporter, base);
    SubsetNotLarger(PointsFrom(points, start), points);
    while at.ri < |ranges| || at.li < |lines|
      invariant Going(ranges, lines, at, reporter, memory, done, before)
      invariant steps + |PointsFrom(points, at.current)| <= |points|
      decreases ADDRESS_SPACE - at.current
    {
      ghost var was := at.current;
      assert was in points;
      var stop: bool;
      stop, at, memory, done := Round(ranges, lines, at, reporter, memory, done, before);
      FewerPoints(points, was, if stop then MAX_ADDRESS else at.current);
      steps := steps + 1;
      if stop {
        return;
      }
    }
    Ended(ranges, lines, at, reporter, memory, done, before);
  }

  /** The first invariant of the loop, with its two assertions: each iterator that is not
      at its end is at the earliest extent that contains the address or starts after it. */
  lemma InFirstOrAfter(ranges: seq<FunctionRange>, lines: seq<Line>, at: Spot)
    requires Stands(ranges, lines, at)
    ensures at.ri < |ranges| ==>
              at.current < ranges[at.ri].extent.address || Within(ranges[at.ri].extent, at.current)
    ensures at.li < |lines| ==>
              at.current < lines[at.li].extent.address || Within(lines[at.li].extent, at.current)
    ensures forall k | 0 <= k < at.ri :: ranges[k].extent.address <= at.current && !Within(ranges[k].extent, at.current)
    ensures forall k | 0 <= k < at.li :: lines[k].extent.address <= at.current && !Within(lines[k].extent, at.current)
  {
    var rs, ls := RangeExtents(ranges), LineExtents(lines);
    forall k | 0 <= k < |rs|
      ensures rs[k].Proper() && (Within(rs[k], at.current) <==> rs[k].Covers(at.current))
    {
      WithinCovers(rs[k], at.current);
    }
    forall k | 0 <= k < |ls|
      ensures ls[k].Proper() && (Within(ls[k], at.current) <==> ls[k].Covers(at.current))
    {
      WithinCovers(ls[k], at.current);
    }
  }
}
