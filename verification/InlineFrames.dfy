/** The frames made for the inlined calls at an address. */
module InlineFrames {
  import opened Addresses
  import opened RangeForest
  import opened ContainedRangeMap
  import opened InlineNesting

  datatype Trust = Unknown | Context | Inlined

  /** A source position: file name and line. */
  datatype Site = Site(file: string, line: int)

  class StackFrame {
    const moduleBase: Address
    var functionName: string
    var sourceFileName: string
    var sourceLine: int
    var functionBase: Address
    var trust: Trust

    constructor Copy(that: StackFrame)
      ensures moduleBase == that.moduleBase
      ensures functionName == that.functionName && Position() == that.Position()
      ensures functionBase == that.functionBase && trust == that.trust
    {
      moduleBase := that.moduleBase;
      functionName, sourceFileName, sourceLine := that.functionName, that.sourceFileName, that.sourceLine;
      functionBase, trust := that.functionBase, that.trust;
    }

    ghost function Position(): Site
      reads this
    {
      Site(sourceFileName, sourceLine)
    }
  }

  /** Where a call inlined here was made; the file defaults to the physical frame's. */
  function CallSite(in_: Inline, files: map<int, string>, defaultFile: string): Site {
    Site(if in_.hasCallSiteFile && in_.callSiteFile in files then files[in_.callSiteFile] else defaultFile,
         in_.callSiteLine)
  }

  function OriginName(in_: Inline, origins: map<int, string>): string {
    if in_.origin in origins then origins[in_.origin] else "<name omitted>"
  }

  /** The start of the first listed range covering the address, if there is one. */
  function StartOfRange(ranges: seq<Range>, address: int): Address {
    if ranges == [] then 0
    else if ranges[0].base <= address < (ranges[0].base + ranges[0].size) % ADDRESS_SPACE then ranges[0].base
    else StartOfRange(ranges[1..], address)
  }

  /** The range covers the address, and does not reach the end of the address space,
      where the comparison wraps. */
  predicate CoversBelowEnd(r: Range, address: int) {
    r.Covers(address) && r.base + r.size < ADDRESS_SPACE
  }

  ghost predicate CoversSome(ranges: seq<Range>, address: int) {
    exists r | r in ranges :: CoversBelowEnd(r, address)
  }

  ghost predicate StartsCovering(ranges: seq<Range>, address: int, start: int) {
    exists r | r in ranges :: r.base == start && r.Covers(address)
  }

  lemma ComparisonWraps(r: Range, address: int)
    ensures r.base <= address < (r.base + r.size) % ADDRESS_SPACE <==> CoversBelowEnd(r, address)
  {
    if r.base + r.size >= ADDRESS_SPACE {
      assert (r.base + r.size) % ADDRESS_SPACE == r.base + r.size - ADDRESS_SPACE;
    }
  }

  /** It is the start of a range that covers the address exactly if one of those that do
      ends below the end of the address space. */
  lemma {:induction false} StartCovers(ranges: seq<Range>, address: int)
    ensures StartsCovering(ranges, address, StartOfRange(ranges, address)) <==> CoversSome(ranges, address)
  {
    if ranges != [] {
      ComparisonWraps(ranges[0], address);
      StartCovers(ranges[1..], address);
      StartCoversFirst(ranges, address);
    }
  }

  lemma StartCoversFirst(ranges: seq<Range>, address: int)
    requires ranges != []
    requires var rest := ranges[1..];
             StartsCovering(rest, address, StartOfRange(rest, address)) <==> CoversSome(rest, address)
    ensures StartsCovering(ranges, address, StartOfRange(ranges, address)) <==> CoversSome(ranges, address)
  {
    var rest := ranges[1..];
    assert ranges == [ranges[0]] + rest;
    ComparisonWraps(ranges[0], address);
    if CoversBelowEnd(ranges[0], address) {
      assert ranges[0] in ranges;
    } else if r :| r in rest && CoversBelowEnd(r, address) {
      var s :| s in rest && s.base == StartOfRange(rest, address) && s.Covers(address);
      assert s in ranges && r in ranges;
    } else {
      NoStart(rest, address);
      assert forall r | r in ranges :: !CoversBelowEnd(r, address);
    }
  }

  lemma {:induction false} NoStart(ranges: seq<Range>, address: int)
    requires !CoversSome(ranges, address)
    ensures StartOfRange(ranges, address) == 0
  {
    if ranges != [] {
      ComparisonWraps(ranges[0], address);
      NoStart(ranges[1..], address);
    }
  }

  /** The last sixteen bytes there are: covered, but the start is lost. */
  lemma StartLostAtEnd()
    ensures var r := Range(ADDRESS_SPACE - 16, 16); r.Covers(MAX_ADDRESS) && StartOfRange([r], MAX_ADDRESS) == 0
  {
    ComparisonWraps(Range(ADDRESS_SPACE - 16, 16), MAX_ADDRESS);
    NoStart([Range(ADDRESS_SPACE - 16, 16)], MAX_ADDRESS);
  }

  /** The new frame names the inlined function and its call site. */
  ghost predicate DescribesCall(f: StackFrame, in_: Inline, address: int, moduleBase: Address,
                                origins: map<int, string>)
    reads f`functionName, f`functionBase, f`trust
  {
    && f.functionName == OriginName(in_, origins)
    && f.functionBase == (moduleBase + StartOfRange(in_.ranges, address)) % ADDRESS_SPACE
    && f.trust == Inlined
  }

  ghost predicate DescribeCalls(frames: seq<StackFrame>, calls: seq<Inline>, address: int, moduleBase: Address,
                                origins: map<int, string>)
    reads (set f | f in frames)`functionName, (set f | f in frames)`functionBase, (set f | f in frames)`trust
  {
    && |frames| == |calls|
    && forall k | 0 <= k < |calls| :: DescribesCall(frames[k], calls[k], address, moduleBase, origins)
  }

  /** The start of the inlined range, as the module is loaded. */
  method FunctionBase(moduleBase: Address, ranges: seq<Range>, address: Address) returns (base: Address)
    ensures base == (moduleBase + StartOfRange(ranges, address)) % ADDRESS_SPACE
  {
    base := moduleBase;
    var i := 0;
    while i < |ranges|
      invariant i <= |ranges| && base == moduleBase
      invariant StartOfRange(ranges, address) == StartOfRange(ranges[i..], address)
    {
      var range := ranges[i];
      if address >= range.base && address < (range.base + range.size) % ADDRESS_SPACE {
        base := (base + range.base) % ADDRESS_SPACE;
        return;
      }
      i := i + 1;
    }
  }

  ghost predicate LoadedStart(moduleBase: Address, ranges: seq<Range>, address: int, base: Address) {
    exists r | r in ranges :: r.Covers(address) && base == (moduleBase + r.base) % ADDRESS_SPACE
  }

  lemma LoadedStartCovers(moduleBase: Address, ranges: seq<Range>, address: int)
    requires CoversSome(ranges, address)
    ensures LoadedStart(moduleBase, ranges, address, (moduleBase + StartOfRange(ranges, address)) % ADDRESS_SPACE)
  {
    StartCovers(ranges, address);
  }

  /** One frame for one inlined call, still holding the position of its call. */
  method MakeFrame(frame: StackFrame, address: Address, in_: Inline,
                   files: map<int, string>, origins: map<int, string>)
    returns (f: StackFrame)
    ensures fresh(f)
    ensures DescribesCall(f, in_, address, frame.moduleBase, origins)
    ensures f.Position() == CallSite(in_, files, frame.sourceFileName)
    ensures in_.hasCallSiteFile && in_.callSiteFile in files ==> f.sourceFileName == files[in_.callSiteFile]
    ensures !(in_.hasCallSiteFile && in_.callSiteFile in files) ==> f.sourceFileName == frame.sourceFileName
    ensures f.sourceLine == in_.callSiteLine && f.trust == Inlined
    ensures if in_.origin in origins then f.functionName == origins[in_.origin] else f.functionName == "<name omitted>"
    ensures CoversSome(in_.ranges, address) ==> LoadedStart(frame.moduleBase, in_.ranges, address, f.functionBase)
  {
    f := new StackFrame.Copy(frame);
    f.functionName := if in_.origin in origins then origins[in_.origin] else "<name omitted>";
    f.sourceLine := in_.callSiteLine;
    if in_.hasCallSiteFile {
      if in_.callSiteFile in files {
        f.sourceFileName := files[in_.callSiteFile];
      }
    }
    f.functionBase := FunctionBase(frame.moduleBase, in_.ranges, address);
    f.trust := Inlined;
    if CoversSome(in_.ranges, address) {
      LoadedStartCovers(frame.moduleBase, in_.ranges, address);
    }
  }

  ghost predicate DistinctFrames(frames: seq<StackFrame>) {
    forall i, j | 0 <= i < j < |frames| :: frames[i] != frames[j]
  }

  /** Exchanges the position a frame holds with the one carried along. */
  method SwapPosition(frame: StackFrame, position: Site) returns (previous: Site)
    modifies frame`sourceFileName, frame`sourceLine
    ensures frame.Position() == position && previous == old(frame.Position())
  {
    previous := Site(frame.sourceFileName, frame.sourceLine);
    frame.sourceFileName, frame.sourceLine := position.file, position.line;
  }

  /** The frames hold the given positions. */
  ghost predicate Positioned(frames: seq<StackFrame>, sites: seq<Site>)
    reads frames
  {
    |sites| == |frames| && forall k | 0 <= k < |frames| :: frames[k].Position() == sites[k]
  }

  /** Positions move one frame inward: the innermost frame gets the one passed in,
      every other the one its inner neighbour held. */
  method ShiftPositions(frames: seq<StackFrame>, position: Site, ghost sites: seq<Site>)
    requires DistinctFrames(frames) && frames != [] && Positioned(frames, sites)
    modifies (set f | f in frames)`sourceFileName, (set f | f in frames)`sourceLine
    ensures Positioned(frames, [position] + sites[..|sites| - 1])
  {
    var carried := position;
    ghost var held := [position] + sites;
    for i := 0 to |frames|
      invariant carried == held[i]
      invariant forall k | 0 <= k < i :: frames[k].Position() == held[k]
      invariant forall k | i <= k < |frames| :: frames[k].Position() == sites[k]
    {
      assert forall k | 0 <= k < |frames| && k != i :: frames[k] != frames[i];
      carried := SwapPosition(frames[i], carried);
    }
  }

  function CallSites(calls: seq<Inline>, files: map<int, string>, defaultFile: string): seq<Site> {
    seq(|calls|, i requires 0 <= i < |calls| => CallSite(calls[i], files, defaultFile))
  }

  /** One frame for each inlined call, innermost first, at the position of its call. */
  method MakeFrames(frame: StackFrame, address: Address, calls: seq<Inline>,
                    files: map<int, string>, origins: map<int, string>)
    returns (made: seq<StackFrame>)
    ensures fresh(made) && DistinctFrames(made) && |made| == |calls|
    ensures DescribeCalls(made, calls, address, frame.moduleBase, origins)
    ensures Positioned(made, CallSites(calls, files, frame.sourceFileName))
  {
    made := [];
    for i := 0 to |calls|
      invariant fresh(made) && DistinctFrames(made) && |made| == i
      invariant forall k | 0 <= k < i ::
                  && DescribesCall(made[k], calls[k], address, frame.moduleBase, origins)
                  && made[k].Position() == CallSite(calls[k], files, frame.sourceFileName)
    {
      var f := MakeFrame(frame, address, calls[i], files, origins);
      made := made + [f];
    }
  }

  /** Passes the physical frame's position to the innermost of the inlined frames,
      and takes the outermost one's. */
  method RotatePositions(frame: StackFrame, frames: seq<StackFrame>, ghost sites: seq<Site>)
    requires DistinctFrames(frames) && frames != [] && frame !in frames && Positioned(frames, sites)
    modifies frame`sourceFileName, frame`sourceLine
    modifies (set f | f in frames)`sourceFileName, (set f | f in frames)`sourceLine
    ensures Positioned(frames, [old(frame.Position())] + sites[..|sites| - 1])
    ensures frame.Position() == sites[|sites| - 1]
  {
    var position := Site(frame.sourceFileName, frame.sourceLine);
    frame.sourceFileName := frames[|frames| - 1].sourceFileName;
    frame.sourceLine := frames[|frames| - 1].sourceLine;
    ShiftPositions(frames, position, sites);
  }

  /** What frames for a non-empty list of calls, innermost first, look like: the
      innermost frame has the physical frame's old position, each other frame the
      call site of the next inner one, and the physical frame the outermost call site. */
  ghost predicate FramesAppended(frame: StackFrame, was: Site, address: Address, calls: seq<Inline>,
                                 files: map<int, string>, origins: map<int, string>,
                                 before: nat, sites: seq<Site>, result: seq<StackFrame>)
    requires calls != []
    reads frame, result
  {
    var held := sites + CallSites(calls, files, was.file);
    && before <= |result|
    && DescribeCalls(result[before..], calls, address, frame.moduleBase, origins)
    && Positioned(result, [was] + held[..|held| - 1])
    && frame.Position() == held[|held| - 1]
  }

  /** The frame is where the call was made: the call's line, in its file if that is known. */
  ghost predicate AtCall(f: StackFrame, call: Inline, files: map<int, string>, ownFile: string)
    reads f`sourceFileName, f`sourceLine
  {
    && f.sourceLine == call.callSiteLine
    && (call.hasCallSiteFile && call.callSiteFile in files ==> f.sourceFileName == files[call.callSiteFile])
    && (!call.hasCallSiteFile || call.callSiteFile !in files ==> f.sourceFileName == ownFile)
  }

  ghost predicate NamedAfter(f: StackFrame, call: Inline, origins: map<int, string>)
    reads f`functionName
  {
    if call.origin in origins then f.functionName == origins[call.origin] else f.functionName == "<name omitted>"
  }

  /** Each frame is named after its call and stands where the next inner call was made; the
      first of all has the physical frame's old position, and the physical frame the
      outermost call's. */
  ghost predicate Unwound(frame: StackFrame, was: Site, calls: seq<Inline>, files: map<int, string>,
                          origins: map<int, string>, before: nat, result: seq<StackFrame>)
    reads frame, result
  {
    && calls != [] && |result| == before + |calls|
    && result[0].sourceFileName == was.file && result[0].sourceLine == was.line
    && (forall k | 0 <= k < |calls| - 1 :: AtCall(result[before + k + 1], calls[k], files, was.file))
    && AtCall(frame, calls[|calls| - 1], files, was.file)
    && (forall k | 0 <= k < |calls| ::
          NamedAfter(result[before + k], calls[k], origins) && result[before + k].trust == Inlined)
  }

  lemma CallPosition(frame: StackFrame, was: Site, address: Address, calls: seq<Inline>,
                     files: map<int, string>, origins: map<int, string>,
                     before: nat, sites: seq<Site>, result: seq<StackFrame>, k: nat)
    requires calls != [] && FramesAppended(frame, was, address, calls, files, origins, before, sites, result)
    requires |sites| == before && k < |calls|
    ensures if k + 1 < |calls|
            then before + k + 1 < |result| && AtCall(result[before + k + 1], calls[k], files, was.file)
            else AtCall(frame, calls[k], files, was.file)
  {
    var held := sites + CallSites(calls, files, was.file);
    assert held[before + k] == CallSite(calls[k], files, was.file);
    if k + 1 < |calls| {
      assert result[before + k + 1].Position() == ([was] + held[..|held| - 1])[before + k + 1] == held[before + k];
    }
  }

  lemma CallNamed(frame: StackFrame, was: Site, address: Address, calls: seq<Inline>,
                  files: map<int, string>, origins: map<int, string>,
                  before: nat, sites: seq<Site>, result: seq<StackFrame>, k: nat)
    requires calls != [] && FramesAppended(frame, was, address, calls, files, origins, before, sites, result)
    requires k < |calls|
    ensures before + k < |result| && result[before + k].trust == Inlined
    ensures NamedAfter(result[before + k], calls[k], origins)
  {
    assert result[before..][k] == result[before + k];
    assert DescribesCall(result[before..][k], calls[k], address, frame.moduleBase, origins);
  }

  lemma AppendedUnwound(frame: StackFrame, was: Site, address: Address, calls: seq<Inline>,
                        files: map<int, string>, origins: map<int, string>,
                        before: nat, sites: seq<Site>, result: seq<StackFrame>)
    requires calls != [] && FramesAppended(frame, was, address, calls, files, origins, before, sites, result)
    requires |sites| == before
    ensures Unwound(frame, was, calls, files, origins, before, result)
  {
    forall k: nat | k < |calls|
      ensures if k + 1 < |calls| then AtCall(result[before + k + 1], calls[k], files, was.file)
              else AtCall(frame, calls[k], files, was.file)
      ensures result[before + k].trust == Inlined && NamedAfter(result[before + k], calls[k], origins)
    {
      CallPosition(frame, was, address, calls, files, origins, before, sites, result, k);
      CallNamed(frame, was, address, calls, files, origins, before, sites, result, k);
    }
    var held := sites + CallSites(calls, files, was.file);
    assert result[0].Position() == ([was] + held[..|held| - 1])[0];
  }

  lemma JoinFrames(a: seq<StackFrame>, b: seq<StackFrame>, aSites: seq<Site>, bSites: seq<Site>)
    requires DistinctFrames(a) && DistinctFrames(b) && forall i, j | 0 <= i < |a| && 0 <= j < |b| :: a[i] != b[j]
    requires Positioned(a, aSites) && Positioned(b, bSites)
    ensures DistinctFrames(a + b) && Positioned(a + b, aSites + bSites) && (a + b)[|a|..] == b
  {
  }

  lemma AllAppended(frame: StackFrame, was: Site, address: Address, calls: seq<Inline>,
                    files: map<int, string>, origins: map<int, string>, sites: seq<Site>,
                    frames: seq<StackFrame>, made: seq<StackFrame>, held: seq<Site>)
    requires calls != [] && held == sites + CallSites(calls, files, was.file)
    requires DescribeCalls(made, calls, address, frame.moduleBase, origins)
    requires Positioned(frames + made, [was] + held[..|held| - 1]) && frame.Position() == held[|held| - 1]
    ensures FramesAppended(frame, was, address, calls, files, origins, |frames|, sites, frames + made)
  {
    assert (frames + made)[|frames|..] == made;
  }

  /** The frames have been made, each still at its own call site. */
  method MoveInward(frame: StackFrame, address: Address, calls: seq<Inline>,
                    files: map<int, string>, origins: map<int, string>,
                    frames: seq<StackFrame>, ghost sites: seq<Site>, made: seq<StackFrame>)
    requires calls != [] && DistinctFrames(frames + made) && frame !in frames + made
    requires Positioned(frames + made, sites + CallSites(calls, files, frame.sourceFileName))
    requires DescribeCalls(made, calls, address, frame.moduleBase, origins)
    modifies frame`sourceFileName, frame`sourceLine
    modifies (set f | f in frames + made)`sourceFileName, (set f | f in frames + made)`sourceLine
    ensures FramesAppended(frame, old(frame.Position()), address, calls, files, origins, |frames|, sites, frames + made)
  {
    ghost var was, held := frame.Position(), sites + CallSites(calls, files, frame.sourceFileName);
    RotatePositions(frame, frames + made, held);
    AllAppended(frame, was, address, calls, files, origins, sites, frames, made, held);
  }

  method AppendFrames(frame: StackFrame, address: Address, calls: seq<Inline>,
                      files: map<int, string>, origins: map<int, string>,
                      frames: seq<StackFrame>, ghost sites: seq<Site>)
    returns (result: seq<StackFrame>)
    requires calls != []
    requires DistinctFrames(frames) && frame !in frames && Positioned(frames, sites)
    modifies frame`sourceFileName, frame`sourceLine
    modifies (set f | f in frames)`sourceFileName, (set f | f in frames)`sourceLine
    ensures |result| == |frames| + |calls| && result[..|frames|] == frames && fresh(result[|frames|..])
    ensures DistinctFrames(result) && frame !in result
    ensures FramesAppended(frame, old(frame.Position()), address, calls, files, origins, |frames|, sites, result)
  {
    var made := MakeFrames(frame, address, calls, files, origins);
    JoinFrames(frames, made, sites, CallSites(calls, files, frame.sourceFileName));
    MoveInward(frame, address, calls, files, origins, frames, sites, made);
    result := frames + made;
  }

  /** Appends one frame for each inlined call covering the address, innermost first. */
  method ConstructInlineFrames(frame: StackFrame, address: Address, inlineMap: ContainedRangeMap<Inline>,
                               files: map<int, string>, origins: map<int, string>,
                               frames: seq<StackFrame>, ghost sites: seq<Site>)
    returns (result: seq<StackFrame>)
    requires inlineMap.Valid()
    requires DistinctFrames(frames) && frame !in frames && Positioned(frames, sites)
    modifies frame`sourceFileName, frame`sourceLine
    modifies (set f | f in frames)`sourceFileName, (set f | f in frames)`sourceLine
    ensures var calls := Entries(Retrieve(old(inlineMap.forest), address));
            if calls == [] then
              result == frames && unchanged(frame) && Positioned(frames, sites)
            else
              && |result| == |frames| + |calls| && result[..|frames|] == frames && fresh(result[|frames|..])
              && DistinctFrames(result) && frame !in result
              && FramesAppended(frame, old(frame.Position()), address, calls, files, origins, |frames|, sites, result)
              && Unwound(frame, old(frame.Position()), calls, files, origins, |frames|, result)
  {
    var found, calls := inlineMap.RetrieveRanges(address, []);
    assert calls == Entries(Retrieve(inlineMap.forest, address));
    if !found {
      return frames;
    }
    ghost var was := frame.Position();
    result := AppendFrames(frame, address, calls, files, origins, frames, sites);
    AppendedUnwound(frame, was, address, calls, files, origins, |frames|, sites, result);
  }

  /** From a function's INLINE records to its frames: for calls nested in each other in any
      way, those that cover the address, deepest first, each at the position from which it
      was left. */
  method FramesOfNest(frame: StackFrame, address: Address, trees: seq<InlineTree>, ghost within: seq<Range>,
                      files: map<int, string>, origins: map<int, string>)
    returns (result: seq<StackFrame>)
    requires WellNested(trees, 0, within)
    modifies frame`sourceFileName, frame`sourceLine
    ensures var calls := Reverse(PathTo(trees, address));
            if calls == [] then result == [] && unchanged(frame)
            else
              && |result| == |calls| && fresh(result) && DistinctFrames(result)
              && FramesAppended(frame, old(frame.Position()), address, calls, files, origins, 0, [], result)
              && Unwound(frame, old(frame.Position()), calls, files, origins, 0, result)
  {
    var func := new Function();
    var ok := func.AppendTrees(trees);
    NestedInlinesAnswer(trees, within, address);
    result := ConstructInlineFrames(frame, address, func.inlines, files, origins, [], []);
  }
}
