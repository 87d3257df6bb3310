/** Inlined calls: reading a function's INLINE records into a range map, what an
    address query then answers, and the stack frames made from the answer. */
module InlineNesting {
  import opened Addresses
  import opened RangeForest
  import opened RangeHistory
  import opened ContainedRangeMap

  datatype Range = Range(base: Address, size: Address) {
    predicate Proper() {
      0 < size && base + size <= ADDRESS_SPACE
    }

    predicate Covers(address: int) {
      base <= address < base + size
    }

    predicate Within(that: Range) {
      that.base <= base && base + size <= that.base + that.size
    }

    predicate Disjoint(that: Range) {
      base + size <= that.base || that.base + that.size <= base
    }
  }

  /** An INLINE record. */
  datatype Inline = Inline(ranges: seq<Range>, nestLevel: int, callSiteLine: int,
                           hasCallSiteFile: bool, callSiteFile: int, origin: int)
  {
    predicate Covers(address: int) {
      exists r | r in ranges :: r.Covers(address)
    }
  }

  /** An inlined call and the calls inlined into it. */
  datatype InlineTree = InlineTree(data: Inline, children: seq<InlineTree>)

  /** The order in which records are written: a call before the calls inside it. */
  function Preorder(trees: seq<InlineTree>): seq<Inline> {
    if trees == [] then []
    else [trees[0].data] + Preorder(trees[0].children) + Preorder(trees[1..])
  }

  /** The calls covering an address, outermost first. */
  function PathTo(trees: seq<InlineTree>, address: int): seq<Inline> {
    if trees == [] then []
    else if trees[0].data.Covers(address) then [trees[0].data] + PathTo(trees[0].children, address)
    else PathTo(trees[1..], address)
  }

  // ----------------------------------------------------- appending records

  function Puts(in_: Inline): seq<Op<Inline>> {
    seq(|in_.ranges|, i requires 0 <= i < |in_.ranges| => Put(in_.ranges[i].base, in_.ranges[i].size, in_))
  }

  /** What a function has been told: the store requests made and the last level added. */
  datatype Appended = Appended(ops: seq<Op<Inline>>, last: int)

  function Append(st: Appended, in_: Inline): (Appended, bool) {
    if in_.nestLevel > st.last + 1 then (st, false) else (Appended(st.ops + Puts(in_), in_.nestLevel), true)
  }

  /** Appending records in order; the flag says whether every one was accepted. */
  function AppendAll(st: Appended, records: seq<Inline>): (Appended, bool) {
    if records == [] then (st, true)
    else
      var n := |records| - 1;
      var (front, ok) := AppendAll(st, records[..n]);
      var (all, accepted) := Append(front, records[n]);
      (all, ok && accepted)
  }

  predicate OneDeeperAtMost(last: int, records: seq<Inline>, k: nat)
    requires k < |records|
  {
    records[k].nestLevel <= (if k == 0 then last else records[k - 1].nestLevel) + 1
  }

  /** Records are all accepted exactly if none is more than one level deeper than the one
      before it, the first being at level one at most. */
  lemma {:induction false} AcceptedIff(st: Appended, records: seq<Inline>)
    ensures var (end, ok) := AppendAll(st, records);
            && (ok <==> forall k: nat | k < |records| :: OneDeeperAtMost(st.last, records, k))
            && (ok ==> end.last == if records == [] then st.last else records[|records| - 1].nestLevel)
  {
    if records != [] {
      var n := |records| - 1;
      AcceptedIff(st, records[..n]);
      forall k: nat | k < n
        ensures OneDeeperAtMost(st.last, records[..n], k) <==> OneDeeperAtMost(st.last, records, k)
      {
      }
      assert AppendAll(st, records).1 <==> AppendAll(st, records[..n]).1 && OneDeeperAtMost(st.last, records, n) by {
        if AppendAll(st, records[..n]).1 {
          assert AppendAll(st, records[..n]).0.last == if n == 0 then st.last else records[n - 1].nestLevel;
        }
      }
    }
  }

  /** A call, then the calls in it with those in them, then its siblings. */
  lemma PreorderByExample(a: Inline, b: Inline, c: Inline, d: Inline, e: Inline)
    ensures Preorder([InlineTree(a, [InlineTree(b, [InlineTree(c, [])]), InlineTree(d, [])]), InlineTree(e, [])]) ==
            [a, b, c, d, e]
  {
    var tb, td, te := InlineTree(b, [InlineTree(c, [])]), InlineTree(d, []), InlineTree(e, []);
    assert Preorder([InlineTree(c, [])]) == [c] && Preorder([td]) == [d] && Preorder([te]) == [e];
    assert [tb, td][1..] == [td] && [InlineTree(a, [tb, td]), te][1..] == [te];
    assert Preorder([tb, td]) == [b] + [c] + [d];
  }

  lemma RangesByAddresses(r: Range, q: Range)
    requires r.Proper() && q.Proper()
    ensures r.Disjoint(q) <==> forall a :: !(r.Covers(a) && q.Covers(a))
    ensures r.Within(q) <==> forall a :: r.Covers(a) ==> q.Covers(a)
    ensures forall a :: r.Covers(a) <==> r.base <= a <= r.base + (r.size - 1)
  {
    assert r.Covers(r.base) && r.Covers(r.base + r.size - 1) && q.Covers(q.base) && q.Covers(q.base + q.size - 1);
  }

  class Function {
    const inlines: ContainedRangeMap<Inline>
    var lastAddedInlineNestLevel: int
    ghost var ops: seq<Op<Inline>>

    ghost predicate Valid()
      reads this, inlines, inlines.Repr
    {
      && inlines.Valid() && this !in inlines.Repr
      && inlines.allowEqualRange
      && inlines.forest == Run(ops, true).forest
    }

    ghost function State(): Appended
      reads this
    {
      Appended(ops, lastAddedInlineNestLevel)
    }

    constructor ()
      ensures Valid() && fresh(inlines) && fresh(inlines.Repr)
      ensures State() == Appended([], 0)
    {
      inlines := new ContainedRangeMap<Inline>(true);
      lastAddedInlineNestLevel := 0;
      ops := [];
    }

    /** Stores the ranges of one record; refuses a record whose parent is missing. */
    method AppendInline(in_: Inline) returns (ok: bool)
      requires Valid()
      modifies this, inlines.Repr
      ensures Valid() && fresh(inlines.Repr - old(inlines.Repr))
      ensures (State(), ok) == Append(old(State()), in_)
      ensures ok <==> in_.nestLevel <= old(lastAddedInlineNestLevel) + 1
      ensures lastAddedInlineNestLevel == if ok then in_.nestLevel else old(lastAddedInlineNestLevel)
    {
      if in_.nestLevel > lastAddedInlineNestLevel + 1 {
        return false;
      }
      lastAddedInlineNestLevel := in_.nestLevel;
      ghost var puts := Puts(in_);
      for i := 0 to |in_.ranges|
        invariant Valid() && fresh(inlines.Repr - old(inlines.Repr))
        invariant lastAddedInlineNestLevel == in_.nestLevel
        invariant ops == old(ops) + puts[..i]
      {
        StoreInlineRange(in_.ranges[i], in_);
        AppendPrefix(old(ops), puts, i);
      }
      assert puts[..|puts|] == puts;
      ok := true;
    }

    method StoreInlineRange(range: Range, in_: Inline)
      requires Valid()
      modifies this`ops, inlines.Repr
      ensures Valid() && fresh(inlines.Repr - old(inlines.Repr))
      ensures ops == old(ops) + [Put(range.base, range.size, in_)]
    {
      PutNext(ops, Put(range.base, range.size, in_));
      var stored := inlines.StoreRange(range.base, range.size, in_);
      ops := ops + [Put(range.base, range.size, in_)];
    }

    /** Visits the calls in preorder and appends each one's record. */
    method AppendTrees(trees: seq<InlineTree>) returns (ok: bool)
      requires Valid()
      modifies this, inlines.Repr
      ensures Valid() && fresh(inlines.Repr - old(inlines.Repr))
      ensures (State(), ok) == AppendAll(old(State()), Preorder(trees))
      decreases trees
    {
      ok := true;
      for i := 0 to |trees|
        invariant Valid() && fresh(inlines.Repr - old(inlines.Repr))
        invariant (State(), ok) == AppendAll(old(State()), Preorder(trees[..i]))
      {
        var first := AppendInline(trees[i].data);
        var below := AppendTrees(trees[i].children);
        AppendNext(old(State()), trees, i);
        ok := ok && first && below;
      }
      assert trees[..|trees|] == trees;
    }
  }

  lemma AppendPrefix<T>(a: seq<T>, b: seq<T>, i: nat)
    requires i < |b|
    ensures a + b[..i] + [b[i]] == a + b[..i + 1]
  {
  }

  lemma PutNext(ops: seq<Op<Inline>>, op: Op<Inline>)
    requires op.Put?
    ensures Run(ops + [op], true).forest == StoreRange(Run(ops, true).forest, op.base, op.size, op.entry, true).1
  {
    assert (ops + [op])[..|ops|] == ops;
  }

  lemma {:induction false} PreorderSnoc(trees: seq<InlineTree>, t: InlineTree)
    ensures Preorder(trees + [t]) == Preorder(trees) + [t.data] + Preorder(t.children)
  {
    if trees == [] {
      assert Preorder([t]) == [t.data] + Preorder(t.children) + Preorder([]);
    } else {
      PreorderSnoc(trees[1..], t);
      assert (trees + [t])[1..] == trees[1..] + [t];
    }
  }

  lemma AppendNext(st: Appended, trees: seq<InlineTree>, i: nat)
    requires i < |trees|
    ensures var (st1, ok1) := AppendAll(st, Preorder(trees[..i]));
            var (st2, ok2) := Append(st1, trees[i].data);
            var (st3, ok3) := AppendAll(st2, Preorder(trees[i].children));
            AppendAll(st, Preorder(trees[..i + 1])) == (st3, ok1 && ok2 && ok3)
  {
    PreorderSnoc(trees[..i], trees[i]);
    assert trees[..i + 1] == trees[..i] + [trees[i]];
    var head := [trees[i].data];
    assert head[..0] == [];
    AppendAllConcat(st, Preorder(trees[..i]), head);
    AppendAllConcat(st, Preorder(trees[..i]) + head, Preorder(trees[i].children));
  }

  lemma {:induction false} AppendAllConcat(st: Appended, a: seq<Inline>, b: seq<Inline>)
    ensures var (mid, ok) := AppendAll(st, a);
            var (end, more) := AppendAll(mid, b);
            AppendAll(st, a + b) == (end, ok && more)
  {
    if b == [] {
      assert a + b == a;
    } else {
      AppendAllConcat(st, a, b[..|b| - 1]);
      assert (a + b)[..|a + b| - 1] == a + b[..|b| - 1];
    }
  }

  // --------------------------------------------------------- nested calls

  /** Sibling calls at one level: their ranges are non-empty, each lies inside one
      range of the enclosing call, no two overlap; and so on inside each call. */
  ghost predicate WellNested(trees: seq<InlineTree>, level: int, within: seq<Range>)
    decreases trees
  {
    trees != [] ==>
      && LevelAndRanges(trees[0].data, level, within)
      && WellNested(trees[0].children, level + 1, trees[0].data.ranges)
      && WellNested(trees[1..], level, within)
      && forall t | t in trees[1..] :: Separate(trees[0].data, t.data)
  }

  ghost predicate LevelAndRanges(in_: Inline, level: int, within: seq<Range>) {
    && in_.nestLevel == level
    && (forall r | r in in_.ranges :: r.Proper() && exists w | w in within :: r.Within(w))
    && (forall i, j | 0 <= i < j < |in_.ranges| :: in_.ranges[i].Disjoint(in_.ranges[j]))
  }

  ghost predicate Separate(a: Inline, b: Inline) {
    forall r, q | r in a.ranges && q in b.ranges :: r.Disjoint(q)
  }

  /** Reading a well-nested function's records never meets a missing parent. */
  lemma {:induction false} LevelsAccepted(trees: seq<InlineTree>, level: int, within: seq<Range>, st: Appended)
    requires WellNested(trees, level, within) && level <= st.last + 1
    ensures AppendAll(st, Preorder(trees)).1
    ensures trees != [] ==> level <= AppendAll(st, Preorder(trees)).0.last
    decreases trees
  {
    if trees != [] {
      var head := [trees[0].data];
      var below := Preorder(trees[0].children);
      var rest := Preorder(trees[1..]);
      AppendAllConcat(st, head, below);
      AppendAllConcat(st, head + below, rest);
      assert head[..0] == [];
      var st1 := AppendAll(st, head).0;
      LevelsAccepted(trees[0].children, level + 1, trees[0].data.ranges, st1);
      var st2 := AppendAll(st, head + below).0;
      LevelsAccepted(trees[1..], level, within, st2);
    }
  }

  // The ranges of a nest of calls, in the order they are stored.

  function RecordSpans(in_: Inline): seq<Span<Inline>> {
    seq(|in_.ranges|, i requires 0 <= i < |in_.ranges| =>
      Span(in_.ranges[i].base, in_.ranges[i].base + in_.ranges[i].size - 1, in_))
  }

  function CallSpans(trees: seq<InlineTree>): seq<Span<Inline>> {
    if trees == [] then []
    else RecordSpans(trees[0].data) + CallSpans(trees[0].children) + CallSpans(trees[1..])
  }

  ghost predicate SpanIn(s: Span<Inline>, ranges: seq<Range>) {
    exists r | r in ranges :: r.base <= s.base <= s.high < r.base + r.size
  }

  lemma RecordSpansIn(in_: Inline, level: int, within: seq<Range>, s: Span<Inline>)
    requires LevelAndRanges(in_, level, within) && s in RecordSpans(in_)
    ensures SpanIn(s, in_.ranges) && s.entry == in_
    ensures 0 <= s.base <= s.high < ADDRESS_SPACE
  {
    var i :| 0 <= i < |in_.ranges| && RecordSpans(in_)[i] == s;
    assert in_.ranges[i] in in_.ranges;
  }

  lemma SpanInWithin(in_: Inline, level: int, within: seq<Range>, s: Span<Inline>)
    requires LevelAndRanges(in_, level, within) && SpanIn(s, in_.ranges)
    ensures SpanIn(s, within)
    ensures 0 <= s.base <= s.high < ADDRESS_SPACE
  {
    var r :| r in in_.ranges && r.base <= s.base <= s.high < r.base + r.size;
    var w :| w in within && r.Within(w);
  }

  /** Every stored range lies inside a range of one of the outermost calls. */
  lemma {:induction false} CallSpansIn(trees: seq<InlineTree>, level: int, within: seq<Range>, s: Span<Inline>)
    requires WellNested(trees, level, within) && s in CallSpans(trees)
    ensures exists t | t in trees :: SpanIn(s, t.data.ranges)
    ensures SpanIn(s, within) && 0 <= s.base <= s.high < ADDRESS_SPACE
    decreases trees
  {
    var head := trees[0];
    if s in RecordSpans(head.data) {
      RecordSpansIn(head.data, level, within, s);
      SpanInWithin(head.data, level, within, s);
      assert head in trees;
    } else if s in CallSpans(head.children) {
      CallSpansIn(head.children, level + 1, head.data.ranges, s);
      SpanInWithin(head.data, level, within, s);
      assert head in trees;
    } else {
      CallSpansIn(trees[1..], level, within, s);
      var t :| t in trees[1..] && SpanIn(s, t.data.ranges);
      assert t in trees;
    }
  }

  /** Ranges below the first call do not meet those below the calls after it. */
  lemma HeadApart(trees: seq<InlineTree>, level: int, within: seq<Range>, s: Span<Inline>, t: Span<Inline>)
    requires trees != [] && WellNested(trees, level, within)
    requires SpanIn(s, trees[0].data.ranges) && t in CallSpans(trees[1..])
    ensures s.Disjoint(t)
  {
    CallSpansIn(trees[1..], level, within, t);
    var u :| u in trees[1..] && SpanIn(t, u.data.ranges);
    assert Separate(trees[0].data, u.data);
    var r :| r in trees[0].data.ranges && r.base <= s.base <= s.high < r.base + r.size;
    var q :| q in u.data.ranges && q.base <= t.base <= t.high < q.base + q.size;
    assert r.Disjoint(q);
  }

  /** A range inside one range of a call crosses none of the call's ranges. */
  lemma InsideNotCrossing(in_: Inline, level: int, within: seq<Range>, s: Span<Inline>, t: Span<Inline>)
    requires LevelAndRanges(in_, level, within)
    requires s in RecordSpans(in_) && SpanIn(t, in_.ranges)
    ensures s.Contains(t) || s.Disjoint(t)
  {
    var i :| 0 <= i < |in_.ranges| && RecordSpans(in_)[i] == s;
    var r :| r in in_.ranges && r.base <= t.base <= t.high < r.base + r.size;
    var j :| 0 <= j < |in_.ranges| && in_.ranges[j] == r;
    assert i < j ==> in_.ranges[i].Disjoint(in_.ranges[j]);
    assert j < i ==> in_.ranges[j].Disjoint(in_.ranges[i]);
  }

  lemma LaminarConcat(x: seq<Span<Inline>>, y: seq<Span<Inline>>)
    requires Laminar(x, true) && Laminar(y, true)
    requires forall s, t | s in x && t in y :: !s.Crosses(t)
    ensures Laminar(x + y, true)
  {
    var z := x + y;
    forall i, j | 0 <= i < j < |z| ensures !z[i].Crosses(z[j]) {
      if i < |x| <= j {
        assert x[i] in x && y[j - |x|] in y;
      }
    }
  }

  lemma RecordLaminar(in_: Inline, level: int, within: seq<Range>)
    requires LevelAndRanges(in_, level, within)
    ensures Laminar(RecordSpans(in_), true)
  {
    var z := RecordSpans(in_);
    forall i | 0 <= i < |z| ensures 0 <= z[i].base <= z[i].high < ADDRESS_SPACE {
      assert in_.ranges[i] in in_.ranges;
    }
    forall i, j | 0 <= i < j < |z| ensures !z[i].Crosses(z[j]) {
      assert in_.ranges[i].Disjoint(in_.ranges[j]);
    }
  }

  /** No two ranges of a well-nested function cross. */
  lemma {:induction false} CallSpansLaminar(trees: seq<InlineTree>, level: int, within: seq<Range>)
    requires WellNested(trees, level, within)
    ensures Laminar(CallSpans(trees), true)
    decreases trees
  {
    if trees != [] {
      var head := trees[0];
      var own, below, rest := RecordSpans(head.data), CallSpans(head.children), CallSpans(trees[1..]);
      RecordLaminar(head.data, level, within);
      CallSpansLaminar(head.children, level + 1, head.data.ranges);
      CallSpansLaminar(trees[1..], level, within);
      forall s, t | s in own && t in below ensures !s.Crosses(t) {
        CallSpansIn(head.children, level + 1, head.data.ranges, t);
        InsideNotCrossing(head.data, level, within, s, t);
      }
      LaminarConcat(own, below);
      forall s, t | s in own + below && t in rest ensures !s.Crosses(t) {
        HeadSpansIn(trees, level, within, s);
        HeadApart(trees, level, within, s, t);
      }
      LaminarConcat(own + below, rest);
    }
  }

  lemma HeadSpansIn(trees: seq<InlineTree>, level: int, within: seq<Range>, s: Span<Inline>)
    requires trees != [] && WellNested(trees, level, within)
    requires s in RecordSpans(trees[0].data) + CallSpans(trees[0].children)
    ensures SpanIn(s, trees[0].data.ranges)
  {
    if s in RecordSpans(trees[0].data) {
      RecordSpansIn(trees[0].data, level, within, s);
    } else {
      CallSpansIn(trees[0].children, level + 1, trees[0].data.ranges, s);
    }
  }

  // The answer to an address query.

  /** The ranges covering an address, in the order they were stored. */
  function Covering(log: seq<Span<Inline>>, address: int): (r: seq<Span<Inline>>)
    ensures forall s :: s in r <==> s in log && s.Covers(address)
  {
    if log == [] then []
    else
      var front := Covering(log[..|log| - 1], address);
      var s := log[|log| - 1];
      if s.Covers(address) then front + [s] else front
  }

  lemma {:induction false} CoveringConcat(x: seq<Span<Inline>>, y: seq<Span<Inline>>, address: int)
    ensures Covering(x + y, address) == Covering(x, address) + Covering(y, address)
  {
    if y == [] {
      assert x + y == x;
    } else {
      CoveringConcat(x, y[..|y| - 1], address);
      assert (x + y)[..|x + y| - 1] == x + y[..|y| - 1];
    }
  }

  function Reverse<T>(s: seq<T>): (r: seq<T>)
    ensures |r| == |s| && forall i | 0 <= i < |s| :: r[i] == s[|s| - 1 - i]
  {
    if s == [] then [] else [s[|s| - 1]] + Reverse(s[..|s| - 1])
  }

  ghost predicate Narrowing(s: seq<Span<Inline>>) {
    forall i, j | 0 <= i < j < |s| :: s[i].Contains(s[j])
  }

  lemma ReverseSnoc<T>(c: seq<T>, x: T)
    ensures Reverse(c + [x]) == [x] + Reverse(c)
  {
    assert (c + [x])[..|c|] == c;
  }

  lemma NarrowingFront(c: seq<Span<Inline>>, s: Span<Inline>)
    requires Narrowing(c + [s])
    ensures Narrowing(c) && (c != [] ==> c[|c| - 1].Contains(s))
  {
    assert forall i | 0 <= i < |c| :: (c + [s])[i] == c[i];
    assert c != [] ==> (c + [s])[|c| - 1].Contains((c + [s])[|c|]);
  }

  /** When each covering range was stored after one that contains it, the answer
      is the covering ranges latest first. */
  lemma {:induction false} NarrowingChain(log: seq<Span<Inline>>, address: int)
    requires Narrowing(Covering(log, address))
    ensures Chain(log, address) == Reverse(Covering(log, address))
  {
    if log != [] {
      var front := log[..|log| - 1];
      var c := Covering(front, address);
      var s := log[|log| - 1];
      if s.Covers(address) {
        NarrowingFront(c, s);
        ReverseSnoc(c, s);
      }
      NarrowingChain(front, address);
    }
  }

  lemma {:induction false} NoneCovering(log: seq<Span<Inline>>, address: int)
    requires forall s | s in log :: !s.Covers(address)
    ensures Covering(log, address) == []
  {
    if log != [] {
      assert log[|log| - 1] in log;
      NoneCovering(log[..|log| - 1], address);
    }
  }

  lemma OnlyCovering(log: seq<Span<Inline>>, k: nat, address: int)
    requires k < |log| && forall i | 0 <= i < |log| :: log[i].Covers(address) <==> i == k
    ensures Covering(log, address) == [log[k]]
  {
    assert log == log[..k] + [log[k]] + log[k + 1..];
    CoveringConcat(log[..k] + [log[k]], log[k + 1..], address);
    CoveringConcat(log[..k], [log[k]], address);
    NoneCovering(log[..k], address);
    NoneCovering(log[k + 1..], address);
  }

  /** At most one range of a call covers an address. */
  lemma OneCovering(in_: Inline, level: int, within: seq<Range>, address: int)
    requires LevelAndRanges(in_, level, within)
    ensures var c := Covering(RecordSpans(in_), address);
            if in_.Covers(address) then |c| == 1 && c[0].entry == in_ && c[0] in RecordSpans(in_) else c == []
  {
    var z := RecordSpans(in_);
    if in_.Covers(address) {
      var r :| r in in_.ranges && r.Covers(address);
      var k :| 0 <= k < |in_.ranges| && in_.ranges[k] == r;
      forall i | 0 <= i < |z| ensures z[i].Covers(address) <==> i == k {
        assert i < k ==> in_.ranges[i].Disjoint(in_.ranges[k]);
        assert k < i ==> in_.ranges[k].Disjoint(in_.ranges[i]);
      }
      OnlyCovering(z, k, address);
    } else {
      forall s | s in z ensures !s.Covers(address) {
        var i :| 0 <= i < |z| && z[i] == s;
        assert in_.ranges[i] in in_.ranges;
      }
      NoneCovering(z, address);
    }
  }

  lemma SpanCovers(in_: Inline, s: Span<Inline>, address: int)
    requires SpanIn(s, in_.ranges) && s.Covers(address)
    ensures in_.Covers(address)
  {
    var r :| r in in_.ranges && r.base <= s.base <= s.high < r.base + r.size;
    assert r.Covers(address);
  }

  lemma CoveringParts(trees: seq<InlineTree>, address: int)
    requires trees != []
    ensures Covering(CallSpans(trees), address) ==
            Covering(RecordSpans(trees[0].data), address) + Covering(CallSpans(trees[0].children), address)
            + Covering(CallSpans(trees[1..]), address)
  {
    var own, below, rest := RecordSpans(trees[0].data), CallSpans(trees[0].children), CallSpans(trees[1..]);
    CoveringConcat(own + below, rest, address);
    CoveringConcat(own, below, address);
  }

  /** The ranges covering an address narrow along the path of calls covering it. */
  lemma {:induction false} CallsCovering(trees: seq<InlineTree>, level: int, within: seq<Range>, address: int)
    requires WellNested(trees, level, within)
    ensures Narrowing(Covering(CallSpans(trees), address))
    ensures Entries(Covering(CallSpans(trees), address)) == PathTo(trees, address)
    decreases trees
  {
    if trees != [] {
      CoveringParts(trees, address);
      if trees[0].data.Covers(address) {
        CallsCovering(trees[0].children, level + 1, trees[0].data.ranges, address);
        HeadCovers(trees, level, within, address);
      } else {
        CallsCovering(trees[1..], level, within, address);
        HeadMisses(trees, level, within, address);
      }
    }
  }

  lemma HeadCovers(trees: seq<InlineTree>, level: int, within: seq<Range>, address: int)
    requires trees != [] && WellNested(trees, level, within) && trees[0].data.Covers(address)
    requires Narrowing(Covering(CallSpans(trees[0].children), address))
    ensures Narrowing(Covering(CallSpans(trees), address))
    ensures Entries(Covering(CallSpans(trees), address)) ==
            [trees[0].data] + Entries(Covering(CallSpans(trees[0].children), address))
  {
    CoveringParts(trees, address);
    HeadCovering(trees, level, within, address);
    OneCovering(trees[0].data, level, within, address);
    var own := Covering(RecordSpans(trees[0].data), address);
    NarrowingCons(own[0], Covering(CallSpans(trees[0].children), address));
    assert own == [own[0]];
  }

  lemma HeadMisses(trees: seq<InlineTree>, level: int, within: seq<Range>, address: int)
    requires trees != [] && WellNested(trees, level, within) && !trees[0].data.Covers(address)
    ensures Covering(CallSpans(trees), address) == Covering(CallSpans(trees[1..]), address)
  {
    CoveringParts(trees, address);
    OneCovering(trees[0].data, level, within, address);
    NothingBelow(trees[0], level, within, address);
  }

  lemma NarrowingCons(s: Span<Inline>, chain: seq<Span<Inline>>)
    requires Narrowing(chain) && forall t | t in chain :: s.Contains(t)
    ensures Narrowing([s] + chain) && Entries([s] + chain) == [s.entry] + Entries(chain)
    ensures [s] + chain + [] == [s] + chain
  {
  }

  lemma NothingBelow(head: InlineTree, level: int, within: seq<Range>, address: int)
    requires LevelAndRanges(head.data, level, within) && WellNested(head.children, level + 1, head.data.ranges)
    requires !head.data.Covers(address)
    ensures Covering(CallSpans(head.children), address) == []
  {
    forall t | t in CallSpans(head.children) ensures !t.Covers(address) {
      CallSpansIn(head.children, level + 1, head.data.ranges, t);
      if t.Covers(address) {
        SpanCovers(head.data, t, address);
      }
    }
    NoneCovering(CallSpans(head.children), address);
  }

  lemma HeadCovering(trees: seq<InlineTree>, level: int, within: seq<Range>, address: int)
    requires trees != [] && WellNested(trees, level, within)
    requires trees[0].data.Covers(address)
    ensures Covering(CallSpans(trees[1..]), address) == []
    ensures var own, below := Covering(RecordSpans(trees[0].data), address),
                              Covering(CallSpans(trees[0].children), address);
            forall s, t | s in own && t in below :: s.Contains(t)
  {
    var head := trees[0];
    var own, below, rest := RecordSpans(head.data), CallSpans(head.children), CallSpans(trees[1..]);
    OneCovering(head.data, level, within, address);
    var s0 := Covering(own, address)[0];
    RecordSpansIn(head.data, level, within, s0);
    forall t | t in rest ensures !t.Covers(address) {
      HeadApart(trees, level, within, s0, t);
    }
    NoneCovering(rest, address);
    forall s, t | s in Covering(own, address) && t in Covering(below, address) ensures s.Contains(t) {
      CallSpansIn(head.children, level + 1, head.data.ranges, t);
      InsideNotCrossing(head.data, level, within, s, t);
    }
  }

  // The two readings of the records agree.

  function AllPuts(records: seq<Inline>): seq<Op<Inline>> {
    if records == [] then [] else Puts(records[0]) + AllPuts(records[1..])
  }

  lemma {:induction false} AllPutsConcat(a: seq<Inline>, b: seq<Inline>)
    ensures AllPuts(a + b) == AllPuts(a) + AllPuts(b)
  {
    if a == [] {
      assert a + b == b;
    } else {
      assert (a + b)[1..] == a[1..] + b;
      AllPutsConcat(a[1..], b);
    }
  }

  lemma {:induction false} AcceptedPuts(st: Appended, records: seq<Inline>)
    requires AppendAll(st, records).1
    ensures AppendAll(st, records).0.ops == st.ops + AllPuts(records)
  {
    if records != [] {
      var n := |records| - 1;
      AcceptedPuts(st, records[..n]);
      AllPutsConcat(records[..n], [records[n]]);
      assert records == records[..n] + [records[n]];
      assert AllPuts([records[n]]) == Puts(records[n]);
    }
  }

  ghost predicate AllPutsProper(ops: seq<Op<Inline>>) {
    forall i | 0 <= i < |ops| :: ops[i].Proper()
  }

  lemma {:induction false} PutsSpans(trees: seq<InlineTree>, level: int, within: seq<Range>)
    requires WellNested(trees, level, within)
    ensures AllPutsProper(AllPuts(Preorder(trees)))
    ensures Spans(AllPuts(Preorder(trees))) == CallSpans(trees)
    decreases trees
  {
    if trees != [] {
      var head := trees[0];
      var below, rest := Preorder(head.children), Preorder(trees[1..]);
      AllPutsConcat([head.data] + below, rest);
      AllPutsConcat([head.data], below);
      assert AllPuts([head.data]) == Puts(head.data);
      PutsSpans(head.children, level + 1, head.data.ranges);
      PutsSpans(trees[1..], level, within);
      assert AllPutsProper(Puts(head.data)) by {
        forall i | 0 <= i < |Puts(head.data)| ensures Puts(head.data)[i].Proper() {
          assert head.data.ranges[i] in head.data.ranges;
        }
      }
      assert Spans(Puts(head.data)) == RecordSpans(head.data);
      SpansConcat(Puts(head.data), AllPuts(below));
      SpansConcat(Puts(head.data) + AllPuts(below), AllPuts(rest));
    }
  }

  lemma SpansConcat(a: seq<Op<Inline>>, b: seq<Op<Inline>>)
    requires AllPutsProper(a) && AllPutsProper(b)
    ensures AllPutsProper(a + b) && Spans(a + b) == Spans(a) + Spans(b)
  {
  }

  /** A call with a range, and one inlined into it with the same range. */
  predicate EqualRanges(outer: Inline, inner: Inline) {
    && outer.nestLevel == 0 && inner.nestLevel == 1
    && outer.ranges == [Range(0x1000, 0x10)] && inner.ranges == [Range(0x1000, 0x10)]
  }

  lemma LeafNested(in_: Inline, level: int, within: Range)
    requires in_.nestLevel == level && in_.ranges == [Range(0x1000, 0x10)] && Range(0x1000, 0x10).Within(within)
    ensures LevelAndRanges(in_, level, [within])
  {
    assert Range(0x1000, 0x10).Proper() && within in [within];
  }

  lemma SingleNested(t: InlineTree, level: int, within: seq<Range>)
    requires LevelAndRanges(t.data, level, within) && WellNested(t.children, level + 1, t.data.ranges)
    ensures WellNested([t], level, within)
  {
    assert [t][1..] == [];
  }

  lemma EqualRangesNested(outer: Inline, inner: Inline)
    requires EqualRanges(outer, inner)
    ensures WellNested([InlineTree(outer, [InlineTree(inner, [])])], 0, [Range(0x1000, 0x20)])
  {
    LeafNested(inner, 1, Range(0x1000, 0x10));
    SingleNested(InlineTree(inner, []), 1, outer.ranges);
    LeafNested(outer, 0, Range(0x1000, 0x20));
    SingleNested(InlineTree(outer, [InlineTree(inner, [])]), 0, [Range(0x1000, 0x20)]);
  }

  lemma SinglePath(t: InlineTree, address: int)
    ensures PathTo([t], address) == if t.data.Covers(address) then [t.data] + PathTo(t.children, address) else []
  {
    assert [t][1..] == [];
  }

  lemma EqualRangesPath(outer: Inline, inner: Inline)
    requires EqualRanges(outer, inner)
    ensures var trees := [InlineTree(outer, [InlineTree(inner, [])])];
            PathTo(trees, 0x100F) == [outer, inner] && PathTo(trees, 0x1010) == []
  {
    CoveredByExample(outer);
    CoveredByExample(inner);
    SinglePath(InlineTree(inner, []), 0x100F);
    SinglePath(InlineTree(outer, [InlineTree(inner, [])]), 0x100F);
    SinglePath(InlineTree(outer, [InlineTree(inner, [])]), 0x1010);
  }

  lemma CoveredByExample(in_: Inline)
    requires in_.ranges == [Range(0x1000, 0x10)]
    ensures in_.Covers(0x100F) && !in_.Covers(0x1010)
  {
    assert Range(0x1000, 0x10) in in_.ranges && Range(0x1000, 0x10).Covers(0x100F);
  }

  lemma ReverseTwo(a: Inline, b: Inline)
    ensures Reverse([a, b]) == [b, a]
  {
    var r := Reverse([a, b]);
    assert r[0] == b && r[1] == a;
  }

  /** They are well nested, and the inner one comes first. */
  lemma EqualRangesAnswer(outer: Inline, inner: Inline)
    requires EqualRanges(outer, inner)
    ensures var (st, ok) := AppendAll(Appended([], 0), Preorder([InlineTree(outer, [InlineTree(inner, [])])]));
            && ok && Entries(Retrieve(Run(st.ops, true).forest, 0x100F)) == [inner, outer]
            && Entries(Retrieve(Run(st.ops, true).forest, 0x1010)) == []
  {
    var trees := [InlineTree(outer, [InlineTree(inner, [])])];
    EqualRangesNested(outer, inner);
    EqualRangesPath(outer, inner);
    ReverseTwo(outer, inner);
    NestedInlinesAnswer(trees, [Range(0x1000, 0x20)], 0x100F);
    NestedInlinesAnswer(trees, [Range(0x1000, 0x20)], 0x1010);
  }

  lemma NestedPutsStored(trees: seq<InlineTree>, within: seq<Range>)
    requires WellNested(trees, 0, within)
    ensures Run(AllPuts(Preorder(trees)), true).log == CallSpans(trees)
  {
    PutsSpans(trees, 0, within);
    CallSpansLaminar(trees, 0, within);
    LaminarAccepted(AllPuts(Preorder(trees)), true);
  }

  lemma NestedRecordsAccepted(trees: seq<InlineTree>, within: seq<Range>)
    requires WellNested(trees, 0, within)
    ensures AppendAll(Appended([], 0), Preorder(trees)).1
    ensures AppendAll(Appended([], 0), Preorder(trees)).0.ops == AllPuts(Preorder(trees))
  {
    LevelsAccepted(trees, 0, within, Appended([], 0));
    AcceptedPuts(Appended([], 0), Preorder(trees));
  }

  /** Reading a well-nested function's records in preorder accepts them all, stores
      all their ranges, and the answer at an address is the chain of calls covering
      it, deepest first, whether or not a call and its parent have equal ranges. */
  lemma NestedInlinesAnswer(trees: seq<InlineTree>, within: seq<Range>, address: int)
    requires WellNested(trees, 0, within)
    ensures var (st, ok) := AppendAll(Appended([], 0), Preorder(trees));
            && ok
            && Run(st.ops, true).log == CallSpans(trees)
            && Entries(Retrieve(Run(st.ops, true).forest, address)) == Reverse(PathTo(trees, address))
  {
    NestedRecordsAccepted(trees, within);
    NestedPutsStored(trees, within);
    RunAnswers(AllPuts(Preorder(trees)), true, address);
    CallsCovering(trees, 0, within, address);
    NarrowingChain(CallSpans(trees), address);
    ReverseEntries(Covering(CallSpans(trees), address));
  }

  lemma ReverseEntries(chain: seq<Span<Inline>>)
    ensures Entries(Reverse(chain)) == Reverse(Entries(chain))
  {
  }
}
