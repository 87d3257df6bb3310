/** Assigning a compilation unit's lines to its functions, from unsorted input. */
module AssignLines {
  import opened Addresses
  import opened Sorting
  import opened LineCoverage
  import opened LineReports
  import opened LineSweep

  /** All non-empty ranges of the functions, in the functions' order. */
  function NonEmptyRanges(functions: seq<Function>): seq<FunctionRange> {
    if functions == [] then []
    else
      var last := functions[|functions| - 1];
      NonEmptyRanges(functions[..|functions| - 1]) + OwnRanges(last, last.ranges)
  }

  function OwnRanges(f: Function, ranges: seq<Extent>): seq<FunctionRange> {
    if ranges == [] then []
    else
      OwnRanges(f, ranges[..|ranges| - 1])
      + if ranges[|ranges| - 1].size != 0 then [FunctionRange(ranges[|ranges| - 1], f)] else []
  }

  /** All non-empty ranges with their functions, sorted by address. */
  method FillSortedFunctionRanges(functions: seq<Function>) returns (ranges: seq<FunctionRange>)
    ensures multiset(ranges) == multiset(NonEmptyRanges(functions))
    ensures SortedBy(ranges, (r: FunctionRange) => r.extent.address)
  {
    var dest: seq<FunctionRange> := [];
    for i := 0 to |functions|
      invariant dest == NonEmptyRanges(functions[..i])
    {
      var f := functions[i];
      ghost var before := dest;
      for j := 0 to |f.ranges|
        invariant dest == before + OwnRanges(f, f.ranges[..j])
      {
        assert f.ranges[..j + 1][..j] == f.ranges[..j];
        if f.ranges[j].size != 0 {
          dest := dest + [FunctionRange(f.ranges[j], f)];
        }
      }
      assert f.ranges[..|f.ranges|] == f.ranges;
      assert functions[..i + 1][..i] == functions[..i];
    }
    assert functions[..|functions|] == functions;
    ranges := Sort(dest, (r: FunctionRange) => r.extent.address);
  }

  // ------------------------------------------------------ what is promised

  ghost predicate FunctionCovers(f: Function, b: int) {
    exists r | r in f.ranges :: r.Covers(b)
  }

  ghost predicate LineCovers(lines: seq<Line>, b: int) {
    exists l | l in lines :: l.extent.Covers(b)
  }

  /** `p` is a non-empty piece of the line `l`. */
  predicate PieceOf(p: Line, l: Line) {
    && l.extent.address <= p.extent.address && 0 < p.extent.size && p.extent.End() <= l.extent.End()
    && p.file == l.file && p.number == l.number
  }

  ghost predicate NoOverlap(functions: seq<Function>, lines: seq<Line>) {
    && Pairwise(NonEmptyRanges(functions), (a: FunctionRange, b: FunctionRange) => Apart(a.extent, b.extent))
    && Pairwise(lines, (a: Line, b: Line) => Apart(a.extent, b.extent))
  }

  predicate Apart(a: Extent, b: Extent) {
    a.End() <= b.address || b.End() <= a.address
  }

  /** They have no byte in common. */
  lemma ApartByBytes(a: Extent, b: Extent)
    requires a.Proper() && b.Proper()
    ensures Apart(a, b) <==> forall x :: !(a.Covers(x) && b.Covers(x))
  {
    assert a.Covers(a.address) && b.Covers(b.address);
  }

  /** Lines are not empty and neither they nor the ranges wrap. */
  ghost predicate ProperUnit(functions: seq<Function>, lines: seq<Line>) {
    && (forall r | r in NonEmptyRanges(functions) :: r.extent.Proper())
    && (forall l | l in lines :: l.extent.Proper())
  }

  lemma {:induction false} OwnRangesMembers(f: Function, ranges: seq<Extent>, r: FunctionRange)
    ensures r in OwnRanges(f, ranges) <==> r.owner == f && r.extent in ranges && r.extent.size != 0
  {
    if ranges != [] {
      OwnRangesMembers(f, ranges[..|ranges| - 1], r);
      assert ranges == ranges[..|ranges| - 1] + [ranges[|ranges| - 1]];
    }
  }

  lemma {:induction false} RangesMembers(functions: seq<Function>, r: FunctionRange)
    ensures r in NonEmptyRanges(functions) <==> r.owner in functions && r.extent in r.owner.ranges && r.extent.size != 0
  {
    if functions != [] {
      var last := functions[|functions| - 1];
      RangesMembers(functions[..|functions| - 1], r);
      OwnRangesMembers(last, last.ranges, r);
      assert functions == functions[..|functions| - 1] + [last];
    }
  }

  /** Sorted, disjoint and not empty: in ascending order. */
  lemma SortedDisjointOrdered(xs: seq<Extent>)
    requires AllProper(xs)
    requires forall i, j | 0 <= i < j < |xs| :: xs[i].address <= xs[j].address
    requires forall i, j | 0 <= i < j < |xs| :: Apart(xs[i], xs[j])
    ensures Ordered(xs)
  {
    forall i, j | 0 <= i < j < |xs| ensures EndsBefore(xs, i, j) {
      assert Apart(xs[i], xs[j]) && xs[i].address <= xs[j].address;
      assert xs[j].Proper();
    }
  }

  lemma {:induction false} RangesCollect(functions: seq<Function>)
    ensures multiset(NonEmptyRanges(functions)) == Collect(functions, (f: Function) => multiset(OwnRanges(f, f.ranges)))
  {
    if functions != [] {
      RangesCollect(functions[..|functions| - 1]);
    }
  }

  /** The order of the functions does not matter to the collection of ranges. */
  lemma RangesPermuted(a: seq<Function>, b: seq<Function>)
    requires multiset(a) == multiset(b)
    ensures multiset(NonEmptyRanges(a)) == multiset(NonEmptyRanges(b))
  {
    RangesCollect(a);
    RangesCollect(b);
    CollectPermuted(a, b, (f: Function) => multiset(OwnRanges(f, f.ranges)));
  }

  /** Sorting makes the sequences the pass expects. */
  lemma SortedInput(functions: seq<Function>, lines: seq<Line>, ranges: seq<FunctionRange>, sorted: seq<Line>)
    requires ProperUnit(functions, lines)
    requires multiset(ranges) == multiset(NonEmptyRanges(functions)) && multiset(sorted) == multiset(lines)
    requires SortedBy(ranges, (r: FunctionRange) => r.extent.address)
    requires SortedBy(sorted, (l: Line) => l.extent.address)
    ensures ProperInput(ranges, sorted)
    ensures NoOverlap(functions, lines) ==> Ordered(RangeExtents(ranges)) && Ordered(LineExtents(sorted))
  {
    SortedRanges(functions, lines, ranges);
    SortedLines(functions, lines, sorted);
  }

  lemma SortedRanges(functions: seq<Function>, lines: seq<Line>, ranges: seq<FunctionRange>)
    requires ProperUnit(functions, lines) && multiset(ranges) == multiset(NonEmptyRanges(functions))
    requires SortedBy(ranges, (r: FunctionRange) => r.extent.address)
    ensures AllProper(RangeExtents(ranges))
    ensures NoOverlap(functions, lines) ==> Ordered(RangeExtents(ranges))
  {
    var all := NonEmptyRanges(functions);
    var key := (r: FunctionRange) => r.extent.address;
    forall i | 0 <= i < |ranges| ensures ranges[i].extent.Proper() {
      SameMembers(all, ranges, ranges[i]);
    }
    if NoOverlap(functions, lines) {
      var apart := (a: FunctionRange, b: FunctionRange) => Apart(a.extent, b.extent);
      PairwisePermuted(all, ranges, apart);
      forall i, j | 0 <= i < j < |ranges|
        ensures Apart(ranges[i].extent, ranges[j].extent)
        ensures ranges[i].extent.address <= ranges[j].extent.address
      {
        assert apart(ranges[i], ranges[j]);
        assert key(ranges[i]) <= key(ranges[j]);
      }
      SortedDisjointOrdered(RangeExtents(ranges));
    }
  }

  lemma SortedLines(functions: seq<Function>, lines: seq<Line>, sorted: seq<Line>)
    requires ProperUnit(functions, lines) && multiset(sorted) == multiset(lines)
    requires SortedBy(sorted, (l: Line) => l.extent.address)
    ensures AllProper(LineExtents(sorted))
    ensures NoOverlap(functions, lines) ==> Ordered(LineExtents(sorted))
  {
    var key := (l: Line) => l.extent.address;
    forall i | 0 <= i < |sorted| ensures sorted[i].extent.Proper() {
      SameMembers(lines, sorted, sorted[i]);
    }
    if NoOverlap(functions, lines) {
      var apart := (a: Line, b: Line) => Apart(a.extent, b.extent);
      PairwisePermuted(lines, sorted, apart);
      forall i, j | 0 <= i < j < |sorted|
        ensures Apart(sorted[i].extent, sorted[j].extent)
        ensures sorted[i].extent.address <= sorted[j].extent.address
      {
        assert apart(sorted[i], sorted[j]);
        assert key(sorted[i]) <= key(sorted[j]);
      }
      SortedDisjointOrdered(LineExtents(sorted));
    }
  }

  // ------------------------------------------------- the lines of a function

  /** The pieces are disjoint and ascend. */
  ghost predicate AscendingLines(pieces: seq<Line>) {
    forall i, j | 0 <= i < j < |pieces| :: LineBefore(pieces, i, j)
  }

  ghost predicate LineBefore(pieces: seq<Line>, i: nat, j: nat)
    requires i < |pieces| && j < |pieces|
  {
    pieces[i].extent.End() <= pieces[j].extent.address
  }

  /** Every piece is part of a line and lies in a range of the function. */
  ghost predicate Truthful(f: Function, pieces: seq<Line>, lines: seq<Line>) {
    forall p | p in pieces ::
      && (exists l | l in lines :: PieceOf(p, l))
      && (exists r | r in f.ranges :: r.address <= p.extent.address && p.extent.End() <= r.End())
  }

  ghost predicate InPiece(pieces: seq<Line>, l: Line, b: int) {
    exists p | p in pieces :: PieceOf(p, l) && p.extent.Covers(b)
  }

  /** A byte is in a piece of a line exactly when it is in the line and in a range
      of the function. */
  ghost predicate Exact(f: Function, pieces: seq<Line>, lines: seq<Line>) {
    forall l, b | l in lines && 0 <= b < MAX_ADDRESS ::
      InPiece(pieces, l, b) <==> l.extent.Covers(b) && FunctionCovers(f, b)
  }

  ghost predicate GivenAt(log: seq<Cut>, k: nat, ranges: seq<FunctionRange>, lines: seq<Line>, f: Function, p: Line)
    requires SoundPieces(log, ranges, lines)
  {
    k < |log| && p in GivenTo(log[k], ranges, lines, f)
  }

  /** A piece was given by one of the cuts. */
  lemma {:induction false} PieceCut(log: seq<Cut>, ranges: seq<FunctionRange>, lines: seq<Line>, f: Function, p: Line)
    returns (k: nat)
    requires SoundPieces(log, ranges, lines) && p in PiecesOf(log, ranges, lines, f)
    ensures GivenAt(log, k, ranges, lines, f, p)
  {
    var n := |log| - 1;
    if p in PiecesOf(log[..n], ranges, lines, f) {
      k := PieceCut(log[..n], ranges, lines, f, p);
    } else {
      k := n;
    }
  }

  lemma {:induction false} CutPiece(log: seq<Cut>, k: nat, ranges: seq<FunctionRange>, lines: seq<Line>, f: Function,
                                    p: Line)
    requires SoundPieces(log, ranges, lines) && GivenAt(log, k, ranges, lines, f, p)
    ensures p in PiecesOf(log, ranges, lines, f)
  {
    var n := |log| - 1;
    if k < n {
      CutPiece(log[..n], k, ranges, lines, f, p);
    }
  }

  lemma {:induction false} PiecesAscend(log: seq<Cut>, ranges: seq<FunctionRange>, lines: seq<Line>, f: Function)
    requires SoundPieces(log, ranges, lines) && Ascending(log)
    ensures AscendingLines(PiecesOf(log, ranges, lines, f))
  {
    if log != [] {
      var n := |log| - 1;
      var front := PiecesOf(log[..n], ranges, lines, f);
      assert Ascending(log[..n]) by {
        forall j, k | 0 <= j < k < n ensures CutBefore(log[..n], j, k) {
          assert CutBefore(log, j, k);
        }
      }
      PiecesAscend(log[..n], ranges, lines, f);
      forall i | 0 <= i < |front| ensures front[i].extent.End() <= log[n].from {
        var k := PieceCut(log[..n], ranges, lines, f, front[i]);
        assert CutBefore(log, k, n);
      }
      var all := PiecesOf(log, ranges, lines, f);
      forall i, j | 0 <= i < j < |all| ensures LineBefore(all, i, j) {
        if j < |front| {
          assert LineBefore(front, i, j);
        }
      }
    }
  }

  /** The ranges and lines of a pass are those of the unit. */
  ghost predicate SameUnit(functions: seq<Function>, lines: seq<Line>, ranges: seq<FunctionRange>, sorted: seq<Line>) {
    multiset(ranges) == multiset(NonEmptyRanges(functions)) && multiset(sorted) == multiset(lines)
  }

  lemma PiecesTruthful(functions: seq<Function>, lines: seq<Line>, ranges: seq<FunctionRange>, sorted: seq<Line>,
                       log: seq<Cut>, f: Function)
    requires SameUnit(functions, lines, ranges, sorted) && SoundPieces(log, ranges, sorted)
    ensures Truthful(f, PiecesOf(log, ranges, sorted, f), lines)
  {
    forall p | p in PiecesOf(log, ranges, sorted, f)
      ensures (exists l | l in lines :: PieceOf(p, l))
              && (exists r | r in f.ranges :: r.address <= p.extent.address && p.extent.End() <= r.End())
    {
      var k := PieceCut(log, ranges, sorted, f, p);
      PieceIn(functions, lines, ranges, sorted, log, k, f, p);
    }
  }

  lemma PieceIn(functions: seq<Function>, lines: seq<Line>, ranges: seq<FunctionRange>, sorted: seq<Line>,
                log: seq<Cut>, k: nat, f: Function, p: Line)
    requires SameUnit(functions, lines, ranges, sorted) && SoundPieces(log, ranges, sorted)
    requires k < |log| && p in GivenTo(log[k], ranges, sorted, f)
    ensures sorted[log[k].line] in lines && PieceOf(p, sorted[log[k].line])
    ensures ranges[log[k].range].extent in f.ranges && ranges[log[k].range].extent.address <= p.extent.address
            && p.extent.End() <= ranges[log[k].range].extent.End()
  {
    SameMembers(sorted, lines, sorted[log[k].line]);
    SameMembers(ranges, NonEmptyRanges(functions), ranges[log[k].range]);
    RangesMembers(functions, ranges[log[k].range]);
  }

  lemma PiecesExact(functions: seq<Function>, lines: seq<Line>, ranges: seq<FunctionRange>, sorted: seq<Line>,
                    log: seq<Cut>, f: Function)
    requires SameUnit(functions, lines, ranges, sorted) && SoundPieces(log, ranges, sorted) && f in functions
    requires Complete(log, RangeExtents(ranges), LineExtents(sorted), MAX_ADDRESS)
    ensures Exact(f, PiecesOf(log, ranges, sorted, f), lines)
  {
    var pieces := PiecesOf(log, ranges, sorted, f);
    forall l, b | l in lines && 0 <= b < MAX_ADDRESS
      ensures InPiece(pieces, l, b) <==> l.extent.Covers(b) && FunctionCovers(f, b)
    {
      if InPiece(pieces, l, b) {
        PiecesTruthful(functions, lines, ranges, sorted, log, f);
        var p :| p in pieces && PieceOf(p, l) && p.extent.Covers(b);
        var r :| r in f.ranges && r.address <= p.extent.address && p.extent.End() <= r.End();
        assert r.Covers(b);
      }
      if l.extent.Covers(b) && FunctionCovers(f, b) {
        CoveredInPiece(functions, lines, ranges, sorted, log, f, l, b);
      }
    }
  }

  lemma CoveredInPiece(functions: seq<Function>, lines: seq<Line>, ranges: seq<FunctionRange>, sorted: seq<Line>,
                       log: seq<Cut>, f: Function, l: Line, b: int)
    requires SameUnit(functions, lines, ranges, sorted) && SoundPieces(log, ranges, sorted) && f in functions
    requires Complete(log, RangeExtents(ranges), LineExtents(sorted), MAX_ADDRESS)
    requires l in lines && 0 <= b < MAX_ADDRESS && l.extent.Covers(b) && FunctionCovers(f, b)
    ensures InPiece(PiecesOf(log, ranges, sorted, f), l, b)
  {
    var r :| r in f.ranges && r.Covers(b);
    RangesMembers(functions, FunctionRange(r, f));
    SameMembers(ranges, NonEmptyRanges(functions), FunctionRange(r, f));
    SameMembers(sorted, lines, l);
    var i: nat :| i < |ranges| && ranges[i] == FunctionRange(r, f);
    var j: nat :| j < |sorted| && sorted[j] == l;
    assert RangeExtents(ranges)[i].Covers(b) && LineExtents(sorted)[j].Covers(b);
    assert HasCut(log, i, j, b);
    var k :| 0 <= k < |log| && log[k].range == i && log[k].line == j && log[k].from <= b < log[k].to;
    var p := Piece(sorted[j], log[k].from, log[k].to);
    assert p in GivenTo(log[k], ranges, sorted, f);
    CutPiece(log, k, ranges, sorted, f, p);
    assert PieceOf(p, l) && p.extent.Covers(b);
  }

  // ------------------------------------------------------------ the warnings

  ghost predicate AnyFunctionCovers(functions: seq<Function>, b: int) {
    exists f | f in functions :: FunctionCovers(f, b)
  }

  /** A byte of the function that no line covers. */
  ghost predicate BareByte(f: Function, lines: seq<Line>, b: int) {
    0 <= b < MAX_ADDRESS && FunctionCovers(f, b) && !LineCovers(lines, b)
  }

  /** A byte of the line that no function covers, other than padding after one:
      padding is the tail of a line used before, with a range right after the line. */
  ghost predicate StrayByte(l: Line, functions: seq<Function>, b: int) {
    0 <= b < MAX_ADDRESS && l.extent.Covers(b) && !AnyFunctionCovers(functions, b) && !PaddingByte(l, functions, b)
  }

  ghost predicate PaddingByte(l: Line, functions: seq<Function>, b: int) {
    && (exists r | r in NonEmptyRanges(functions) :: r.extent.address == l.extent.End())
    && (forall c | b <= c < l.extent.End() :: !AnyFunctionCovers(functions, c))
    && (exists c | l.extent.address <= c < b :: AnyFunctionCovers(functions, c))
  }

  lemma CoveredByRanges(functions: seq<Function>, ranges: seq<FunctionRange>, b: int)
    requires multiset(ranges) == multiset(NonEmptyRanges(functions))
    ensures Covered(RangeExtents(ranges), b) <==> AnyFunctionCovers(functions, b)
  {
    var rs := RangeExtents(ranges);
    if i :| 0 <= i < |rs| && rs[i].Covers(b) {
      SameMembers(ranges, NonEmptyRanges(functions), ranges[i]);
      RangesMembers(functions, ranges[i]);
      assert FunctionCovers(ranges[i].owner, b);
    }
    if f :| f in functions && FunctionCovers(f, b) {
      var i := RangeOf(functions, ranges, f, b);
    }
  }

  /** The range that makes a function cover a byte. */
  lemma RangeOf(functions: seq<Function>, ranges: seq<FunctionRange>, f: Function, b: int) returns (i: nat)
    requires multiset(ranges) == multiset(NonEmptyRanges(functions)) && f in functions && FunctionCovers(f, b)
    ensures i < |ranges| && ranges[i].owner == f && RangeExtents(ranges)[i].Covers(b)
  {
    var r :| r in f.ranges && r.Covers(b);
    RangesMembers(functions, FunctionRange(r, f));
    SameMembers(ranges, NonEmptyRanges(functions), FunctionRange(r, f));
    i :| i < |ranges| && ranges[i] == FunctionRange(r, f);
  }

  lemma CoveredByLines(lines: seq<Line>, sorted: seq<Line>, b: int)
    requires multiset(sorted) == multiset(lines)
    ensures Covered(LineExtents(sorted), b) <==> LineCovers(lines, b)
  {
    var ls := LineExtents(sorted);
    if j :| 0 <= j < |ls| && ls[j].Covers(b) {
      SameMembers(sorted, lines, sorted[j]);
    }
    if l :| l in lines && l.extent.Covers(b) {
      SameMembers(sorted, lines, l);
      var j :| 0 <= j < |sorted| && sorted[j] == l;
      assert ls[j].Covers(b);
    }
  }

  lemma ReportsExact(functions: seq<Function>, lines: seq<Line>, ranges: seq<FunctionRange>, sorted: seq<Line>,
                     reports: seq<Function>, f: Function)
    requires SameUnit(functions, lines, ranges, sorted)
    requires Reported(reports, Owners(ranges), RangeExtents(ranges), LineExtents(sorted), MAX_ADDRESS)
    ensures f in reports <==> f in functions && exists b :: BareByte(f, lines, b)
  {
    var rs, ls := RangeExtents(ranges), LineExtents(sorted);
    if f in reports {
      var k :| 0 <= k < |reports| && reports[k] == f;
      assert ReportJustified(reports[k], Owners(ranges), rs, ls, MAX_ADDRESS);
      var b, i: nat :| 0 <= b < MAX_ADDRESS && Bare(rs, ls, i, b) && Owners(ranges)[i] == f;
      SameMembers(ranges, NonEmptyRanges(functions), ranges[i]);
      RangesMembers(functions, ranges[i]);
      CoveredByLines(lines, sorted, b);
      assert BareByte(f, lines, b);
    }
    if f in functions && exists b :: BareByte(f, lines, b) {
      var b :| BareByte(f, lines, b);
      var i := RangeOf(functions, ranges, f, b);
      CoveredByLines(lines, sorted, b);
      assert Bare(rs, ls, i, b);
      assert Owners(ranges)[i] == f;
    }
  }

  lemma PaddingSame(functions: seq<Function>, ranges: seq<FunctionRange>, l: Line, b: int)
    requires multiset(ranges) == multiset(NonEmptyRanges(functions))
    ensures Padding(RangeExtents(ranges), l.extent, b) <==> PaddingByte(l, functions, b)
  {
    var rs := RangeExtents(ranges);
    forall c ensures Covered(rs, c) <==> AnyFunctionCovers(functions, c) {
      CoveredByRanges(functions, ranges, c);
    }
    if i :| 0 <= i < |rs| && rs[i].address == l.extent.End() {
      SameMembers(ranges, NonEmptyRanges(functions), ranges[i]);
    }
    if r :| r in NonEmptyRanges(functions) && r.extent.address == l.extent.End() {
      SameMembers(ranges, NonEmptyRanges(functions), r);
      var i :| 0 <= i < |ranges| && ranges[i] == r;
      assert rs[i].address == l.extent.End();
    }
  }

  lemma StraySame(functions: seq<Function>, lines: seq<Line>, ranges: seq<FunctionRange>, sorted: seq<Line>, j: nat,
                  b: int)
    requires SameUnit(functions, lines, ranges, sorted) && j < |sorted| && 0 <= b < MAX_ADDRESS
    ensures Stray(RangeExtents(ranges), LineExtents(sorted), j, b) <==> StrayByte(sorted[j], functions, b)
  {
    CoveredByRanges(functions, ranges, b);
    PaddingSame(functions, ranges, sorted[j], b);
  }

  lemma LineReportsExact(functions: seq<Function>, lines: seq<Line>, ranges: seq<FunctionRange>, sorted: seq<Line>,
                         cites: seq<nat>, l: Line)
    requires SameUnit(functions, lines, ranges, sorted)
    requires forall k | 0 <= k < |cites| :: cites[k] < |sorted|
    requires LinesReported(cites, RangeExtents(ranges), LineExtents(sorted), MAX_ADDRESS)
    ensures l in LinesAt(cites, sorted) <==> l in lines && exists b :: StrayByte(l, functions, b)
  {
    var rs, ls := RangeExtents(ranges), LineExtents(sorted);
    if l in LinesAt(cites, sorted) {
      var k :| 0 <= k < |cites| && sorted[cites[k]] == l;
      assert StrayBefore(rs, ls, cites[k], MAX_ADDRESS);
      var b :| 0 <= b < MAX_ADDRESS && Stray(rs, ls, cites[k], b);
      StraySame(functions, lines, ranges, sorted, cites[k], b);
      SameMembers(sorted, lines, l);
      assert StrayByte(l, functions, b);
    }
    if l in lines && exists b :: StrayByte(l, functions, b) {
      var b :| StrayByte(l, functions, b);
      SameMembers(sorted, lines, l);
      var j: nat :| j < |sorted| && sorted[j] == l;
      StraySame(functions, lines, ranges, sorted, j, b);
      assert Stray(rs, ls, j, b);
      var k :| 0 <= k < |cites| && cites[k] == j;
      assert LinesAt(cites, sorted)[k] == l;
    }
  }

  lemma {:induction false} NoPieces(log: seq<Cut>, ranges: seq<FunctionRange>, lines: seq<Line>, f: Function)
    requires SoundPieces(log, ranges, lines) && forall i | 0 <= i < |ranges| :: ranges[i].owner != f
    ensures PiecesOf(log, ranges, lines, f) == []
  {
    if log != [] {
      NoPieces(log[..|log| - 1], ranges, lines, f);
    }
  }

  /** The lines a function has gained. */
  ghost function Gained(was: seq<Line>, now: seq<Line>): seq<Line> {
    if |was| <= |now| then now[|was|..] else []
  }

  /** What every function gains, overlapping input or not. */
  ghost predicate Sane(f: Function, was: seq<Line>, now: seq<Line>, lines: seq<Line>) {
    was <= now && AscendingLines(Gained(was, now)) && Truthful(f, Gained(was, now), lines)
  }

  /** What a function gains: sound pieces always, and all there are when nothing
      overlaps. */
  ghost predicate Done(f: Function, was: seq<Line>, functions: seq<Function>, lines: seq<Line>)
    reads f`lines
  {
    && Sane(f, was, f.lines, lines)
    && (NoOverlap(functions, lines) ==> Exact(f, Gained(was, f.lines), lines))
  }

  /** The functions reported are those with a bare byte. */
  ghost predicate FunctionsReported(reports: seq<Function>, functions: seq<Function>, lines: seq<Line>) {
    && (forall f | f in functions :: (exists b :: BareByte(f, lines, b)) ==> f in reports)
    && (forall f | f in reports :: f in functions && exists b :: BareByte(f, lines, b))
  }

  /** The lines reported are those with a stray byte. */
  ghost predicate LinesWarned(reports: seq<Line>, functions: seq<Function>, lines: seq<Line>) {
    forall l :: l in reports <==> l in lines && exists b :: StrayByte(l, functions, b)
  }

  lemma FunctionDone(functions: seq<Function>, lines: seq<Line>, ranges: seq<FunctionRange>, sorted: seq<Line>,
                     log: seq<Cut>, f: Function, was: seq<Line>)
    requires SameUnit(functions, lines, ranges, sorted) && SoundPieces(log, ranges, sorted) && Ascending(log)
    requires f in functions && f.lines == was + PiecesOf(log, ranges, sorted, f)
    requires NoOverlap(functions, lines) ==> Complete(log, RangeExtents(ranges), LineExtents(sorted), MAX_ADDRESS)
    ensures Done(f, was, functions, lines)
  {
    var pieces := PiecesOf(log, ranges, sorted, f);
    assert Gained(was, was + pieces) == pieces;
    PiecesAscend(log, ranges, sorted, f);
    PiecesTruthful(functions, lines, ranges, sorted, log, f);
    if NoOverlap(functions, lines) {
      PiecesExact(functions, lines, ranges, sorted, log, f);
    }
  }

  lemma AllReportsExact(functions: seq<Function>, lines: seq<Line>, ranges: seq<FunctionRange>, sorted: seq<Line>,
                        done: Work)
    requires SameUnit(functions, lines, ranges, sorted) && NoOverlap(functions, lines)
    requires Ordered(RangeExtents(ranges)) && Ordered(LineExtents(sorted))
    requires Assigned(done, ranges, sorted, MAX_ADDRESS) && CitesIn(done.cites, sorted)
    ensures FunctionsReported(done.reports, functions, lines)
    ensures LinesWarned(LinesAt(done.cites, sorted), functions, lines)
  {
    var reports, cites := done.reports, done.cites;
    forall f | f in functions ensures (exists b :: BareByte(f, lines, b)) ==> f in reports {
      ReportsExact(functions, lines, ranges, sorted, reports, f);
    }
    forall f | f in reports ensures f in functions && exists b :: BareByte(f, lines, b) {
      ReportsExact(functions, lines, ranges, sorted, reports, f);
    }
    forall l ensures l in LinesAt(cites, sorted) <==> l in lines && exists b :: StrayByte(l, functions, b) {
      LineReportsExact(functions, lines, ranges, sorted, cites, l);
    }
  }

  /** Between two bare bytes of the function is one of another function. */
  ghost predicate Interrupted(f: Function, functions: seq<Function>, lines: seq<Line>) {
    exists g | g in functions :: exists b, c, d :: InterruptedAt(f, functions, lines, g, b, c, d)
  }

  ghost predicate InterruptedAt(f: Function, functions: seq<Function>, lines: seq<Line>, g: Function,
                                b: int, c: int, d: int) {
    && g != f && b < c < d
    && BareByte(f, lines, b) && BareByte(g, lines, c) && BareByte(f, lines, d)
  }

  lemma BareSame(functions: seq<Function>, lines: seq<Line>, ranges: seq<FunctionRange>, sorted: seq<Line>,
                 f: Function, b: int)
    requires SameUnit(functions, lines, ranges, sorted) && 0 <= b < MAX_ADDRESS
    ensures BareOf(Owners(ranges), RangeExtents(ranges), LineExtents(sorted), f, b) <==>
            f in functions && BareByte(f, lines, b)
  {
    var rs, ls := RangeExtents(ranges), LineExtents(sorted);
    CoveredByLines(lines, sorted, b);
    if BareOf(Owners(ranges), rs, ls, f, b) {
      var i: nat :| Bare(rs, ls, i, b) && Owners(ranges)[i] == f;
      SameMembers(ranges, NonEmptyRanges(functions), ranges[i]);
      RangesMembers(functions, ranges[i]);
    }
    if f in functions && BareByte(f, lines, b) {
      var i := RangeOf(functions, ranges, f, b);
      assert Bare(rs, ls, i, b) && Owners(ranges)[i] == f;
    }
  }

  /** A function is reported again exactly if another one interrupts it. */
  lemma AgainIffInterrupted(functions: seq<Function>, lines: seq<Line>, ranges: seq<FunctionRange>, sorted: seq<Line>,
                            done: Work, f: Function)
    requires SameUnit(functions, lines, ranges, sorted) && f in functions
    requires Ordered(RangeExtents(ranges)) && Ordered(LineExtents(sorted))
    requires Assigned(done, ranges, sorted, MAX_ADDRESS) && NoneTwiceRunning(done.reports)
    ensures ReportedAgain(done.reports, f) <==> Interrupted(f, functions, lines)
  {
    var owners, rs, ls := Owners(ranges), RangeExtents(ranges), LineExtents(sorted);
    if ReportedAgain(done.reports, f) {
      AgainAlternates(done.reports, owners, rs, ls, f);
      var g, b, c, d :| Alternating(owners, rs, ls, f, g, b, c, d);
      BareSame(functions, lines, ranges, sorted, f, b);
      BareSame(functions, lines, ranges, sorted, g, c);
      BareSame(functions, lines, ranges, sorted, f, d);
      assert InterruptedAt(f, functions, lines, g, b, c, d);
    }
    if Interrupted(f, functions, lines) {
      var g, b, c, d :| g in functions && InterruptedAt(f, functions, lines, g, b, c, d);
      BareSame(functions, lines, ranges, sorted, f, b);
      BareSame(functions, lines, ranges, sorted, g, c);
      BareSame(functions, lines, ranges, sorted, f, d);
      AlternatesAgain(done.reports, owners, rs, ls, f, g, b, c, d);
    }
  }

  /** A function in two parts with another one in between, and no lines at all. */
  predicate TwoParts(f: Function, g: Function) {
    f.ranges == [Extent(0x1000, 0x10), Extent(0x1020, 0x10)] && g.ranges == [Extent(0x1010, 0x10)]
  }

  lemma TwoPartsRanges(f: Function, g: Function)
    requires TwoParts(f, g)
    ensures NonEmptyRanges([f, g]) ==
            [FunctionRange(f.ranges[0], f), FunctionRange(f.ranges[1], f), FunctionRange(g.ranges[0], g)]
  {
    var parts := [FunctionRange(f.ranges[0], f), FunctionRange(f.ranges[1], f), FunctionRange(g.ranges[0], g)];
    assert [f, g][..1] == [f] && [f][..0] == [];
    assert g.ranges[..0] == [] && f.ranges[..1] == [f.ranges[0]] && [f.ranges[0]][..0] == [];
    assert OwnRanges(f, f.ranges[..1]) == [parts[0]];
    assert OwnRanges(f, f.ranges) == [parts[0], parts[1]] && OwnRanges(g, g.ranges) == [parts[2]];
    assert NonEmptyRanges([f]) == [parts[0], parts[1]];
  }

  lemma TwoPartsInterrupted(f: Function, g: Function)
    requires TwoParts(f, g)
    ensures NoOverlap([f, g], []) && Interrupted(f, [f, g], [])
  {
    TwoPartsRanges(f, g);
    assert f != g by {
      assert |f.ranges| != |g.ranges|;
    }
    assert f.ranges[0] in f.ranges && f.ranges[1] in f.ranges && g.ranges[0] in g.ranges;
    assert FunctionCovers(f, 0x1000) && FunctionCovers(g, 0x1010) && FunctionCovers(f, 0x1020);
    assert InterruptedAt(f, [f, g], [], g, 0x1000, 0x1010, 0x1020);
    assert g in [f, g];
  }

  /** Each line is reported once at most. */
  lemma {:induction false} CitedOnce(cites: seq<nat>, lines: seq<Line>)
    requires CitesIn(cites, lines) && Rising(cites)
    ensures multiset(LinesAt(cites, lines)) <= multiset(lines)
    decreases |cites|
  {
    if cites != [] {
      var n := |cites| - 1;
      var front, j := cites[..n], cites[n];
      CitedOnce(front, lines[..j]);
      assert LinesAt(cites, lines) == LinesAt(front, lines[..j]) + [lines[j]];
      assert lines == lines[..j] + [lines[j]] + lines[j + 1..];
    }
  }

  lemma OwnersAmong(functions: seq<Function>, lines: seq<Line>, ranges: seq<FunctionRange>, sorted: seq<Line>)
    requires SameUnit(functions, lines, ranges, sorted)
    ensures forall i | 0 <= i < |ranges| :: ranges[i].owner in functions
  {
    forall i | 0 <= i < |ranges| ensures ranges[i].owner in functions {
      SameMembers(ranges, NonEmptyRanges(functions), ranges[i]);
      RangesMembers(functions, ranges[i]);
    }
  }

  lemma UnitDone(functions: seq<Function>, lines: seq<Line>, ranges: seq<FunctionRange>, sorted: seq<Line>,
                 base: map<Function, seq<Line>>, done: Work, f: Function)
    requires ProperInput(ranges, sorted) && SameUnit(functions, lines, ranges, sorted)
    requires NoOverlap(functions, lines) ==> Ordered(RangeExtents(ranges)) && Ordered(LineExtents(sorted))
    requires f in functions && f in base && HoldsPieces(base, done.log, ranges, sorted)
    requires (forall i | 0 <= i < |ranges| :: ranges[i].owner != f) ==> f.lines == base[f]
    requires Assigned(done, ranges, sorted, MAX_ADDRESS)
    ensures Done(f, base[f], functions, lines)
  {
    if i :| 0 <= i < |ranges| && ranges[i].owner == f {
      assert HoldsItsPieces(ranges[i].owner, base, done.log, ranges, sorted);
    } else {
      NoPieces(done.log, ranges, sorted, f);
    }
    FunctionDone(functions, lines, ranges, sorted, done.log, f, base[f]);
  }

  /** The pass over a unit's sorted ranges and lines. */
  method SweepUnit(ranges: seq<FunctionRange>, sorted: seq<Line>, reporter: WarningReporter,
                   ghost functions: seq<Function>, ghost lines: seq<Line>)
    returns (ghost reports: seq<Function>, ghost warned: seq<Line>, ghost steps: nat)
    requires ProperInput(ranges, sorted) && SameUnit(functions, lines, ranges, sorted)
    requires NoOverlap(functions, lines) ==> Ordered(RangeExtents(ranges)) && Ordered(LineExtents(sorted))
    modifies reporter, (set f | f in functions)`lines
    ensures forall f | f in functions :: Done(f, old(f.lines), functions, lines)
    ensures reporter.uncoveredFunctions == old(reporter.uncoveredFunctions) + reports
    ensures reporter.uncoveredLines == old(reporter.uncoveredLines) + warned
    ensures NoneTwiceRunning(reports) && multiset(warned) <= multiset(sorted)
    ensures NoOverlap(functions, lines) ==>
              && FunctionsReported(reports, functions, lines) && LinesWarned(warned, functions, lines)
              && (forall f | f in functions :: ReportedAgain(reports, f) <==> Interrupted(f, functions, lines))
    ensures steps <= 2 * (|ranges| + |sorted|)
  {
    OwnersAmong(functions, lines, ranges, sorted);
    ghost var base := map f | f in functions :: f.lines;
    ghost var done;
    done, steps := Sweep(ranges, sorted, reporter, base);
    reports, warned := done.reports, LinesAt(done.cites, sorted);
    CitedOnce(done.cites, sorted);
    forall f | f in functions ensures Done(f, old(f.lines), functions, lines) {
      UnitDone(functions, lines, ranges, sorted, base, done, f);
    }
    if NoOverlap(functions, lines) {
      AllReportsExact(functions, lines, ranges, sorted, done);
      forall f | f in functions ensures ReportedAgain(reports, f) <==> Interrupted(f, functions, lines) {
        AgainIffInterrupted(functions, lines, ranges, sorted, done, f);
      }
    }
  }

  class DwarfCUToModule {
    var functions: seq<Function>
    var lines: seq<Line>
    const reporter: WarningReporter

    constructor (functions: seq<Function>, lines: seq<Line>, reporter: WarningReporter)
      ensures this.functions == functions && this.lines == lines && this.reporter == reporter
    {
      this.functions, this.lines, this.reporter := functions, lines, reporter;
    }

    /** Assigns the unit's lines to its functions and warns about what is uncovered:
        the functions gain sound, ascending, disjoint pieces whatever the input, and
        when neither ranges nor lines overlap exactly the bytes both cover, with
        exactly the warnings due. */
    method AssignLinesToFunctions() returns (ghost reports: seq<Function>, ghost warned: seq<Line>, ghost steps: nat)
      requires ProperUnit(functions, lines)
      modifies this, reporter, (set f | f in functions)`lines
      ensures multiset(functions) == old(multiset(functions)) && SortedBy(functions, (f: Function) => f.address)
      ensures multiset(lines) == old(multiset(lines)) && SortedBy(lines, (l: Line) => l.extent.address)
      ensures forall f | f in old(functions) :: Done(f, old(f.lines), old(functions), old(lines))
      ensures reporter.uncoveredFunctions == old(reporter.uncoveredFunctions) + reports
      ensures reporter.uncoveredLines == old(reporter.uncoveredLines) + warned
      ensures NoneTwiceRunning(reports) && multiset(warned) <= multiset(lines)
      ensures NoOverlap(old(functions), old(lines)) ==>
                && FunctionsReported(reports, old(functions), old(lines))
                && LinesWarned(warned, old(functions), old(lines))
                && (forall f | f in old(functions) ::
                      ReportedAgain(reports, f) <==> Interrupted(f, old(functions), old(lines)))
      ensures steps <= 2 * (|NonEmptyRanges(old(functions))| + |lines|)
    {
      ghost var unit, unitLines := functions, lines;
      functions := Sort(functions, (f: Function) => f.address);
      lines := Sort(lines, (l: Line) => l.extent.address);
      var ranges := FillSortedFunctionRanges(functions);
      RangesPermuted(functions, unit);
      SortedInput(unit, unitLines, ranges, lines);
      SameSize(ranges, NonEmptyRanges(unit));
      reports, warned, steps := SweepUnit(ranges, lines, reporter, unit, unitLines);
    }
  }

  lemma SameSize<T>(a: seq<T>, b: seq<T>)
    requires multiset(a) == multiset(b)
    ensures |a| == |b|
  {
    assert |multiset(a)| == |a| && |multiset(b)| == |b|;
  }
}
