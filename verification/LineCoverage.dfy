/** What one ascending pass over sorted address ranges and sorted lines must
    produce: the byte-level meaning, and how it grows from one transition address
    to the next. */
module LineCoverage {
  import opened Addresses

  datatype Extent = Extent(address: Address, size: Address) {
    function End(): int {
      address + size
    }

    predicate Covers(b: int) {
      address <= b < End()
    }

    /** Not empty, and not running past the end of the address space. */
    predicate Proper() {
      0 < size && End() <= ADDRESS_SPACE
    }
  }

  /** From its address to the last of its bytes. */
  lemma ByBytes(e: Extent, b: int)
    requires e.Proper()
    ensures e.Covers(b) <==> e.address <= b <= e.address + (e.size - 1)
    ensures e.Proper() <==> e.size > 0 && e.address + (e.size - 1) <= 0xFFFF_FFFF_FFFF_FFFF
  {
  }

  /** The address falls in the extent, in wrapping arithmetic. */
  predicate Within(e: Extent, address: Address) {
    (address - e.address) % ADDRESS_SPACE < e.size
  }

  lemma WithinCovers(e: Extent, address: Address)
    requires e.Proper()
    ensures Within(e, address) <==> e.Covers(address)
  {
    if address < e.address {
      assert (address - e.address) % ADDRESS_SPACE == address - e.address + ADDRESS_SPACE;
    } else {
      assert (address - e.address) % ADDRESS_SPACE == address - e.address;
    }
  }

  ghost predicate AllProper(xs: seq<Extent>) {
    forall i | 0 <= i < |xs| :: xs[i].Proper()
  }

  /** In ascending order and pairwise disjoint. */
  ghost predicate Ordered(xs: seq<Extent>) {
    forall i, j | 0 <= i < j < |xs| :: EndsBefore(xs, i, j)
  }

  ghost predicate EndsBefore(xs: seq<Extent>, i: nat, j: nat)
    requires i < |xs| && j < |xs|
  {
    xs[i].End() <= xs[j].address
  }

  ghost predicate Covered(xs: seq<Extent>, b: int) {
    exists i | 0 <= i < |xs| :: xs[i].Covers(b)
  }

  // ------------------------------------------------------ the moving position

  /** The extent at `i`, if any, contains the current address or starts after it. */
  ghost predicate NotBehind(xs: seq<Extent>, i: nat, current: int) {
    i <= |xs| && (i < |xs| ==> current < xs[i].End())
  }

  /** Everything before `i` ends at or before the current address. */
  ghost predicate Passed(xs: seq<Extent>, i: nat, current: int) {
    i <= |xs| && forall k | 0 <= k < i :: xs[k].End() <= current
  }

  /** No extent starts or ends strictly between the two addresses. */
  ghost predicate Steady(xs: seq<Extent>, i: nat, current: int, next: int) {
    i < |xs| ==> if xs[i].address <= current then next <= xs[i].End() else next <= xs[i].address
  }

  predicate Active(xs: seq<Extent>, i: nat, current: int) {
    i < |xs| && xs[i].address <= current
  }

  lemma OnlyActive(xs: seq<Extent>, i: nat, current: int, next: int, b: int, k: nat)
    requires AllProper(xs) && Ordered(xs) && NotBehind(xs, i, current) && Passed(xs, i, current)
    requires Steady(xs, i, current, next) && current <= b < next
    requires k < |xs| && xs[k].Covers(b)
    ensures k == i && Active(xs, i, current)
  {
    if i < |xs| {
      InOrder(xs, i, k);
    }
  }

  lemma InOrder(xs: seq<Extent>, i: nat, k: nat)
    requires Ordered(xs) && i < |xs| && k < |xs|
    ensures i < k ==> xs[i].End() <= xs[k].address
  {
    if i < k {
      assert EndsBefore(xs, i, k);
    }
  }

  lemma ActiveCovers(xs: seq<Extent>, i: nat, current: int, next: int, b: int)
    requires NotBehind(xs, i, current) && Steady(xs, i, current, next) && current <= b < next
    requires Active(xs, i, current)
    ensures xs[i].Covers(b) && Covered(xs, b)
  {
  }

  // ------------------------------------------------------------ the pieces

  /** A piece of line `line` given to range `range`: the bytes from..to. */
  datatype Cut = Cut(range: nat, line: nat, from: int, to: int)

  /** Every piece lies inside its range and its line and ends by `current`. */
  ghost predicate Sound(log: seq<Cut>, rs: seq<Extent>, ls: seq<Extent>, current: int) {
    forall k | 0 <= k < |log| ::
      && log[k].range < |rs| && log[k].line < |ls|
      && rs[log[k].range].address <= log[k].from < log[k].to <= rs[log[k].range].End()
      && ls[log[k].line].address <= log[k].from && log[k].to <= ls[log[k].line].End()
      && log[k].to <= current
  }

  ghost predicate Ascending(log: seq<Cut>) {
    forall j, k | 0 <= j < k < |log| :: CutBefore(log, j, k)
  }

  ghost predicate CutBefore(log: seq<Cut>, j: nat, k: nat)
    requires j < |log| && k < |log|
  {
    log[j].to <= log[k].from
  }

  ghost predicate HasCut(log: seq<Cut>, range: nat, line: nat, b: int) {
    exists k | 0 <= k < |log| :: log[k].range == range && log[k].line == line && log[k].from <= b < log[k].to
  }

  /** Every byte before `current` that a range and a line cover is in a piece. */
  ghost predicate Complete(log: seq<Cut>, rs: seq<Extent>, ls: seq<Extent>, current: int) {
    forall b, i: nat, j: nat | 0 <= b < current && i < |rs| && j < |ls| && rs[i].Covers(b) && ls[j].Covers(b) ::
      HasCut(log, i, j, b)
  }

  /** The pass has a well-founded position in both sequences. */
  ghost predicate Poised(rs: seq<Extent>, ls: seq<Extent>, ri: nat, li: nat, current: int) {
    && AllProper(rs) && Ordered(rs) && NotBehind(rs, ri, current) && Passed(rs, ri, current)
    && AllProper(ls) && Ordered(ls) && NotBehind(ls, li, current) && Passed(ls, li, current)
  }

  lemma SoundStep(log: seq<Cut>, rs: seq<Extent>, ls: seq<Extent>, ri: nat, li: nat, current: int, next: int)
    requires Sound(log, rs, ls, current) && Ascending(log) && current < next
    requires Active(rs, ri, current) && Steady(rs, ri, current, next)
    requires Active(ls, li, current) && Steady(ls, li, current, next)
    ensures var log' := log + [Cut(ri, li, current, next)];
            Sound(log', rs, ls, next) && Ascending(log')
  {
    var log' := log + [Cut(ri, li, current, next)];
    forall j, k | 0 <= j < k < |log'| ensures CutBefore(log', j, k) {
      if k < |log| {
        assert CutBefore(log, j, k);
      }
    }
  }

  /** The pieces after one transition. */
  function LogStep(log: seq<Cut>, rs: seq<Extent>, ls: seq<Extent>, ri: nat, li: nat, current: int,
                   next: int): seq<Cut> {
    if Active(rs, ri, current) && Active(ls, li, current) then log + [Cut(ri, li, current, next)] else log
  }

  lemma CompleteStep(log: seq<Cut>, rs: seq<Extent>, ls: seq<Extent>, ri: nat, li: nat, current: int, next: int)
    requires Poised(rs, ls, ri, li, current) && Steady(rs, ri, current, next) && Steady(ls, li, current, next)
    requires current < next && Complete(log, rs, ls, current)
    ensures Complete(LogStep(log, rs, ls, ri, li, current, next), rs, ls, next)
  {
    var log' := LogStep(log, rs, ls, ri, li, current, next);
    forall b, i: nat, j: nat | 0 <= b < next && i < |rs| && j < |ls| && rs[i].Covers(b) && ls[j].Covers(b)
      ensures HasCut(log', i, j, b)
    {
      if b < current {
        var k :| 0 <= k < |log| && log[k].range == i && log[k].line == j && log[k].from <= b < log[k].to;
        assert log'[k] == log[k];
      } else {
        OnlyActive(rs, ri, current, next, b, i);
        OnlyActive(ls, li, current, next, b, j);
        assert log'[|log|] == Cut(i, j, current, next);
      }
    }
  }

  // ------------------------------------------------------- uncovered functions

  /** A byte of range `i` that no line covers. */
  ghost predicate Bare(rs: seq<Extent>, ls: seq<Extent>, i: nat, b: int) {
    i < |rs| && rs[i].Covers(b) && !Covered(ls, b)
  }

  /** The owners reported are those of the ranges with a bare byte before `current`. */
  ghost predicate Reported<F>(reports: seq<F>, owners: seq<F>, rs: seq<Extent>, ls: seq<Extent>, current: int)
    requires |owners| == |rs|
  {
    && (forall b, i: nat | 0 <= b < current && Bare(rs, ls, i, b) :: owners[i] in reports)
    && (forall k | 0 <= k < |reports| :: ReportJustified(reports[k], owners, rs, ls, current))
  }

  ghost predicate ReportJustified<F>(owner: F, owners: seq<F>, rs: seq<Extent>, ls: seq<Extent>, current: int)
    requires |owners| == |rs|
  {
    exists b, i: nat :: 0 <= b < current && Bare(rs, ls, i, b) && owners[i] == owner
  }

  lemma JustifiedLater<F>(owner: F, owners: seq<F>, rs: seq<Extent>, ls: seq<Extent>, current: int, next: int)
    requires |owners| == |rs| && current <= next && ReportJustified(owner, owners, rs, ls, current)
    ensures ReportJustified(owner, owners, rs, ls, next)
  {
    var b, i: nat :| 0 <= b < current && Bare(rs, ls, i, b) && owners[i] == owner;
    assert 0 <= b < next && Bare(rs, ls, i, b) && owners[i] == owner;
  }

  /** Between transitions only a range without a line makes bare bytes. */
  lemma ReportStep<F>(reports: seq<F>, reports': seq<F>, owners: seq<F>, rs: seq<Extent>, ls: seq<Extent>,
                      ri: nat, li: nat, current: int, next: int)
    requires |owners| == |rs| && 0 <= current < next
    requires Poised(rs, ls, ri, li, current) && Steady(rs, ri, current, next) && Steady(ls, li, current, next)
    requires Reported(reports, owners, rs, ls, current)
    requires if Active(rs, ri, current) && !Active(ls, li, current)
             then owners[ri] in reports' && (reports' == reports || reports' == reports + [owners[ri]])
             else reports' == reports
    ensures Reported(reports', owners, rs, ls, next)
  {
    forall b, i: nat | 0 <= b < next && Bare(rs, ls, i, b) ensures owners[i] in reports' {
      if current <= b {
        OnlyActive(rs, ri, current, next, b, i);
        if Active(ls, li, current) {
          ActiveCovers(ls, li, current, next, b);
        }
      }
    }
    forall k | 0 <= k < |reports'| ensures ReportJustified(reports'[k], owners, rs, ls, next) {
      if k < |reports| {
        JustifiedLater(reports[k], owners, rs, ls, current, next);
      } else {
        forall j: nat | j < |ls| ensures !ls[j].Covers(current) {
          if ls[j].Covers(current) {
            OnlyActive(ls, li, current, next, current, j);
          }
        }
        assert Bare(rs, ls, ri, current);
      }
    }
  }

  // ----------------------------------------------------------- uncovered lines

  /** Padding after a function: the line's remaining bytes are in no range, a range
      starts exactly where the line ends, and a range covers some earlier byte of it. */
  ghost predicate Padding(rs: seq<Extent>, line: Extent, b: int) {
    && (exists i | 0 <= i < |rs| :: rs[i].address == line.End())
    && (forall c | b <= c < line.End() :: !Covered(rs, c))
    && (exists c | line.address <= c < b :: Covered(rs, c))
  }

  /** A byte of line `j` that no range covers and that is not padding. */
  ghost predicate Stray(rs: seq<Extent>, ls: seq<Extent>, j: nat, b: int) {
    j < |ls| && ls[j].Covers(b) && !Covered(rs, b) && !Padding(rs, ls[j], b)
  }

  /** The lines reported are those with a stray byte before `current`. */
  ghost predicate LinesReported(cites: seq<nat>, rs: seq<Extent>, ls: seq<Extent>, current: int) {
    && (forall b, j: nat | 0 <= b < current && Stray(rs, ls, j, b) :: j in cites)
    && (forall k | 0 <= k < |cites| :: StrayBefore(rs, ls, cites[k], current))
  }

  ghost predicate StrayBefore(rs: seq<Extent>, ls: seq<Extent>, j: nat, current: int) {
    exists b :: 0 <= b < current && Stray(rs, ls, j, b)
  }

  lemma StrayLater(rs: seq<Extent>, ls: seq<Extent>, j: nat, current: int, next: int)
    requires StrayBefore(rs, ls, j, current) && current <= next
    ensures StrayBefore(rs, ls, j, next)
  {
    var b :| 0 <= b < current && Stray(rs, ls, j, b);
    assert 0 <= b < next && Stray(rs, ls, j, b);
  }

  /** The line last used is the next line, and the next range starts where it ends. */
  predicate LooksLikePadding(log: seq<Cut>, rs: seq<Extent>, ls: seq<Extent>, ri: nat, li: nat) {
    log != [] && log[|log| - 1].line == li && ri < |rs| && li < |ls| && rs[ri].address == ls[li].End()
  }

  lemma PaddingFound(log: seq<Cut>, rs: seq<Extent>, ls: seq<Extent>, ri: nat, li: nat, current: int, next: int, b: int)
    requires Poised(rs, ls, ri, li, current) && Steady(rs, ri, current, next) && Sound(log, rs, ls, current)
    requires Active(ls, li, current) && !Active(rs, ri, current) && current <= b < next
    requires LooksLikePadding(log, rs, ls, ri, li)
    ensures Padding(rs, ls[li], b)
  {
    var last := log[|log| - 1];
    assert Covered(rs, last.from) by {
      assert rs[last.range].Covers(last.from);
    }
    forall c | b <= c < ls[li].End() ensures !Covered(rs, c) {
      forall k | 0 <= k < |rs| ensures !rs[k].Covers(c) {
        InOrder(rs, ri, k);
      }
    }
  }

  lemma PaddingNext(rs: seq<Extent>, ls: seq<Extent>, ri: nat, li: nat, current: int, next: int, b: int)
    requires Poised(rs, ls, ri, li, current) && Steady(rs, ri, current, next)
    requires Active(ls, li, current) && !Active(rs, ri, current) && current <= b < next
    requires Padding(rs, ls[li], b)
    ensures ri < |rs| && rs[ri].address == ls[li].End()
  {
    var i :| 0 <= i < |rs| && rs[i].address == ls[li].End();
    assert ri <= i;
    InOrder(rs, ri, i);
    if rs[ri].address < ls[li].End() {
      assert rs[ri].Covers(rs[ri].address);
      assert Covered(rs, rs[ri].address);
    }
  }

  lemma LastCutOfLine(log: seq<Cut>, rs: seq<Extent>, ls: seq<Extent>, li: nat, current: int, k: nat)
    requires AllProper(ls) && Ordered(ls) && Sound(log, rs, ls, current) && Ascending(log)
    requires k < |log| && log[k].line == li && current < ls[li].End()
    ensures log[|log| - 1].line == li
  {
    var last := log[|log| - 1];
    assert k < |log| - 1 ==> CutBefore(log, k, |log| - 1);
    InOrder(ls, li, last.line);
    InOrder(ls, last.line, li);
  }

  lemma PaddingUsed(log: seq<Cut>, rs: seq<Extent>, ls: seq<Extent>, ri: nat, li: nat, current: int, next: int, b: int)
    requires Poised(rs, ls, ri, li, current) && Steady(rs, ri, current, next)
    requires Sound(log, rs, ls, current) && Ascending(log) && Complete(log, rs, ls, current)
    requires Active(ls, li, current) && !Active(rs, ri, current) && current <= b < next
    requires Padding(rs, ls[li], b)
    ensures log != [] && log[|log| - 1].line == li
  {
    var c :| ls[li].address <= c < b && Covered(rs, c);
    var k: nat :| k < |rs| && rs[k].Covers(c);
    if current <= c {
      OnlyActive(rs, ri, current, next, c, k);
    }
    assert ls[li].Covers(c) && HasCut(log, k, li, c);
    var m :| 0 <= m < |log| && log[m].range == k && log[m].line == li && log[m].from <= c < log[m].to;
    LastCutOfLine(log, rs, ls, li, current, m);
  }

  /** Whether a line is reported when the pass meets bytes of it outside every range. */
  predicate Cites(log: seq<Cut>, rs: seq<Extent>, ls: seq<Extent>, ri: nat, li: nat, current: int) {
    Active(ls, li, current) && !Active(rs, ri, current) && !LooksLikePadding(log, rs, ls, ri, li)
  }

  lemma CitedIffStray(log: seq<Cut>, rs: seq<Extent>, ls: seq<Extent>, ri: nat, li: nat, current: int, next: int,
                      b: int)
    requires Poised(rs, ls, ri, li, current) && Steady(rs, ri, current, next) && Steady(ls, li, current, next)
    requires Sound(log, rs, ls, current) && Ascending(log) && Complete(log, rs, ls, current)
    requires Active(ls, li, current) && !Active(rs, ri, current) && current <= b < next
    ensures Stray(rs, ls, li, b) <==> Cites(log, rs, ls, ri, li, current)
  {
    ActiveCovers(ls, li, current, next, b);
    forall k: nat | k < |rs| ensures !rs[k].Covers(b) {
      if rs[k].Covers(b) {
        OnlyActive(rs, ri, current, next, b, k);
      }
    }
    if LooksLikePadding(log, rs, ls, ri, li) {
      PaddingFound(log, rs, ls, ri, li, current, next, b);
    } else if Padding(rs, ls[li], b) {
      PaddingNext(rs, ls, ri, li, current, next, b);
      PaddingUsed(log, rs, ls, ri, li, current, next, b);
    }
  }

  lemma LinesReportStep(cites: seq<nat>, cites': seq<nat>, log: seq<Cut>, rs: seq<Extent>, ls: seq<Extent>,
                        ri: nat, li: nat, current: int, next: int)
    requires 0 <= current < next
    requires Poised(rs, ls, ri, li, current) && Steady(rs, ri, current, next) && Steady(ls, li, current, next)
    requires Sound(log, rs, ls, current) && Ascending(log) && Complete(log, rs, ls, current)
    requires LinesReported(cites, rs, ls, current)
    requires if Cites(log, rs, ls, ri, li, current)
             then li in cites' && (cites' == cites || cites' == cites + [li])
             else cites' == cites
    ensures LinesReported(cites', rs, ls, next)
  {
    forall b, j: nat | 0 <= b < next && Stray(rs, ls, j, b) ensures j in cites' {
      if current <= b {
        OnlyActive(ls, li, current, next, b, j);
        if Active(rs, ri, current) {
          ActiveCovers(rs, ri, current, next, b);
        }
        CitedIffStray(log, rs, ls, ri, li, current, next, b);
      }
    }
    forall k | 0 <= k < |cites'| ensures StrayBefore(rs, ls, cites'[k], next) {
      if k < |cites| {
        StrayLater(rs, ls, cites[k], current, next);
      } else {
        CitedIffStray(log, rs, ls, ri, li, current, next, current);
        assert 0 <= current < next && Stray(rs, ls, li, current);
      }
    }
  }

  // ------------------------------------------------------ transition addresses

  /** All starting and ending addresses. */
  ghost function Points(xs: seq<Extent>): (r: set<int>)
    ensures |r| <= 2 * |xs|
    ensures forall i | 0 <= i < |xs| :: xs[i].address in r && xs[i].End() in r
  {
    if xs == [] then {}
    else
      var last := xs[|xs| - 1];
      Points(xs[..|xs| - 1]) + {last.address, last.End()}
  }

  ghost function PointsFrom(points: set<int>, current: int): set<int> {
    set p | p in points && current <= p
  }

  lemma FewerPoints(points: set<int>, current: int, next: int)
    requires current in points && current < next
    ensures |PointsFrom(points, next)| < |PointsFrom(points, current)|
  {
    assert PointsFrom(points, next) < PointsFrom(points, current) by {
      assert current in PointsFrom(points, current) && current !in PointsFrom(points, next);
    }
    SubsetSmaller(PointsFrom(points, next), PointsFrom(points, current));
  }

  lemma SubsetNotLarger(a: set<int>, b: set<int>)
    requires a <= b
    ensures |a| <= |b|
  {
    if a != b {
      SubsetSmaller(a, b);
    }
  }

  lemma SubsetSmaller(a: set<int>, b: set<int>)
    requires a < b
    ensures |a| < |b|
  {
    var d := b - a;
    assert a * d == {} && a + d == b;
    assert |b| == |a| + |d|;
  }

  // ------------------------------------------------------------ the whole pass

  /** What has been produced for the addresses before `current`: pieces that are
      true and ascending in any case; all of them, and exactly the warnings due,
      when neither the ranges nor the lines overlap. */
  ghost predicate Produced<F>(log: seq<Cut>, reports: seq<F>, cites: seq<nat>, owners: seq<F>,
                              rs: seq<Extent>, ls: seq<Extent>, current: int)
    requires |owners| == |rs|
  {
    && Sound(log, rs, ls, ADDRESS_SPACE) && Ascending(log)
    && (Ordered(rs) && Ordered(ls) ==>
          && Complete(log, rs, ls, current)
          && Reported(reports, owners, rs, ls, current)
          && LinesReported(cites, rs, ls, current))
  }

  /** The iterators stand where the pass is. */
  ghost predicate Standing(rs: seq<Extent>, ls: seq<Extent>, ri: nat, li: nat, current: int) {
    && AllProper(rs) && NotBehind(rs, ri, current) && Passed(rs, ri, current)
    && AllProper(ls) && NotBehind(ls, li, current) && Passed(ls, li, current)
  }

  /** One transition: `upto` is the transition address, or less where the pass stops. */
  lemma ProducedStep<F>(log: seq<Cut>, reports: seq<F>, reports': seq<F>, cites: seq<nat>, cites': seq<nat>,
                        owners: seq<F>,
                        rs: seq<Extent>, ls: seq<Extent>, ri: nat, li: nat, current: int, next: int, upto: int)
    requires |owners| == |rs| && 0 <= current < upto <= next <= ADDRESS_SPACE
    requires Standing(rs, ls, ri, li, current) && Sound(log, rs, ls, current)
    requires Steady(rs, ri, current, next) && Steady(ls, li, current, next)
    requires Produced(log, reports, cites, owners, rs, ls, current)
    requires if Active(rs, ri, current) && !Active(ls, li, current)
             then owners[ri] in reports' && (reports' == reports || reports' == reports + [owners[ri]])
             else reports' == reports
    requires if Cites(log, rs, ls, ri, li, current)
             then li in cites' && (cites' == cites || cites' == cites + [li])
             else cites' == cites
    ensures var log' := LogStep(log, rs, ls, ri, li, current, next);
            Sound(log', rs, ls, next) && Produced(log', reports', cites', owners, rs, ls, upto)
  {
    if Active(rs, ri, current) && Active(ls, li, current) {
      SoundStep(log, rs, ls, ri, li, current, next);
    }
    if Ordered(rs) && Ordered(ls) {
      CompleteStep(log, rs, ls, ri, li, current, next);
      ReportStep(reports, reports', owners, rs, ls, ri, li, current, upto);
      LinesReportStep(cites, cites', log, rs, ls, ri, li, current, upto);
    }
  }

  /** Nothing is due before the first range and the first line. */
  lemma ProducedAtStart<F>(owners: seq<F>, rs: seq<Extent>, ls: seq<Extent>, current: int)
    requires |owners| == |rs| && AllProper(rs) && AllProper(ls)
    requires (|rs| > 0 ==> current <= rs[0].address) && (|ls| > 0 ==> current <= ls[0].address)
    ensures Produced([], [], [], owners, rs, ls, current)
  {
    if Ordered(rs) && Ordered(ls) {
      forall b, i: nat | 0 <= b < current && i < |rs| ensures !rs[i].Covers(b) {
        InOrder(rs, 0, i);
      }
      forall b, j: nat | 0 <= b < current && j < |ls| ensures !ls[j].Covers(b) {
        InOrder(ls, 0, j);
      }
    }
  }

  /** Nothing is left to produce when both sequences are used up. */
  lemma ProducedToEnd<F>(log: seq<Cut>, reports: seq<F>, cites: seq<nat>, owners: seq<F>,
                         rs: seq<Extent>, ls: seq<Extent>, current: int)
    requires |owners| == |rs| && 0 <= current <= MAX_ADDRESS
    requires Standing(rs, ls, |rs|, |ls|, current)
    requires Produced(log, reports, cites, owners, rs, ls, current)
    ensures Produced(log, reports, cites, owners, rs, ls, MAX_ADDRESS)
  {
    if Ordered(rs) && Ordered(ls) {
      forall k | 0 <= k < |reports| ensures ReportJustified(reports[k], owners, rs, ls, MAX_ADDRESS) {
        JustifiedLater(reports[k], owners, rs, ls, current, MAX_ADDRESS);
      }
      forall k | 0 <= k < |cites| ensures StrayBefore(rs, ls, cites[k], MAX_ADDRESS) {
        StrayLater(rs, ls, cites[k], current, MAX_ADDRESS);
      }
    }
  }
}
