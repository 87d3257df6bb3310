/** Whole runs of a hierarchical range map: what every run keeps, what retrieval
    answers in terms of the ranges the run accepted, and when the order of
    insertion does not matter. */
module RangeHistory {
  import opened Wrappers
  import opened Addresses
  import opened RangeForest
  import opened Sorting

  /** The last address of a range, computed in 64-bit arithmetic. */
  function HighOf(base: Address, size: Address): Address {
    (base + size - 1) % ADDRESS_SPACE
  }

  /** StoreRange on the root: the answer and the forest afterwards. */
  function StoreRange<E>(f: Forest<E>, base: Address, size: Address, entry: E, allowEqual: bool): (bool, Forest<E>) {
    var high := HighOf(base, size);
    if size <= 0 || high < base then (false, f)
    else
      match Store(f, Span(base, high, entry), allowEqual)
      case None => (false, f)
      case Some(g) => (true, g)
  }

  datatype Op<+E> = Put(base: Address, size: Address, entry: E) | Clear {
    /** The range is not empty and does not run past the end of the address space. */
    predicate Proper() {
      Put? && 0 < size && base + size <= ADDRESS_SPACE
    }

    function Span(): (s: Span<E>)
      requires Proper()
    {
      RangeForest.Span(base, base + size - 1, entry)
    }
  }

  predicate Has<E>(op: Op<E>, address: int) {
    op.Put? && op.base <= address < op.base + op.size
  }

  /** What ranges are to each other, by the addresses they have. */
  lemma ByAddresses<E>(p: Op<E>, q: Op<E>)
    requires p.Proper() && q.Proper()
    ensures forall a :: p.Span().Covers(a) <==> Has(p, a)
    ensures p.Span().Contains(q.Span()) <==> forall a :: Has(q, a) ==> Has(p, a)
    ensures p.Span().SameGeometry(q.Span()) <==> p.base == q.base && p.size == q.size
    ensures p.Span().Crosses(q.Span()) <==>
            (exists a :: Has(p, a) && Has(q, a)) && (exists a :: Has(p, a) && !Has(q, a))
            && exists a :: Has(q, a) && !Has(p, a)
  {
    assert Has(p, p.base) && Has(p, p.base + p.size - 1) && Has(q, q.base) && Has(q, q.base + q.size - 1);
  }

  /** A range is proper if it is not empty and its last address is one. */
  lemma ProperIff<E>(op: Op<E>)
    requires op.Put?
    ensures op.Proper() <==> op.size > 0 && op.base + op.size - 1 <= 0xFFFF_FFFF_FFFF_FFFF
  {
  }

  /** The forest after a run and the ranges accepted since it was last cleared. */
  datatype History<+E> = History(forest: Forest<E>, log: seq<Span<E>>)

  function Step<E>(h: History<E>, op: Op<E>, allowEqual: bool): History<E> {
    match op
    case Clear => History([], [])
    case Put(base, size, entry) =>
      var (ok, g) := StoreRange(h.forest, base, size, entry, allowEqual);
      if ok then History(g, h.log + [Span(base, HighOf(base, size), entry)]) else h
  }

  function Run<E>(ops: seq<Op<E>>, allowEqual: bool): History<E> {
    if ops == [] then History([], []) else Step(Run(ops[..|ops| - 1], allowEqual), ops[|ops| - 1], allowEqual)
  }

  /** Ranges that cross nothing and, unless allowed, repeat nothing. */
  ghost predicate Laminar<E>(log: seq<Span<E>>, allowEqual: bool) {
    && (forall i | 0 <= i < |log| :: 0 <= log[i].base <= log[i].high < ADDRESS_SPACE)
    && (forall i, j | 0 <= i < j < |log| ::
          !log[i].Crosses(log[j]) && (allowEqual || !log[i].SameGeometry(log[j])))
  }

  /** The accepted ranges covering an address, each put just inside the innermost
      earlier one that contains it. */
  function Chain<E>(log: seq<Span<E>>, address: int): seq<Span<E>> {
    if log == [] then []
    else
      var rest := Chain(log[..|log| - 1], address);
      var s := log[|log| - 1];
      if s.Covers(address) then Nest(rest, s) else rest
  }

  ghost predicate Consistent<E(!new)>(h: History<E>, allowEqual: bool) {
    && WellFormed(h.forest, 0, ADDRESS_SPACE - 1)
    && Laminar(h.log, allowEqual)
    && (forall t :: Holds(h.forest, t) <==> t in h.log)
    && (forall address :: Retrieve(h.forest, address) == Chain(h.log, address))
  }

  /** A request the log has room for. */
  ghost predicate Admissible<E>(log: seq<Span<E>>, op: Op<E>, allowEqual: bool) {
    && op.Proper()
    && forall t | t in log :: !t.Crosses(op.Span()) && (allowEqual || !t.SameGeometry(op.Span()))
  }

  lemma HighOfProper(base: Address, size: Address)
    ensures (size <= 0 || HighOf(base, size) < base) <==> !(0 < size && base + size <= ADDRESS_SPACE)
    ensures 0 < size && base + size <= ADDRESS_SPACE ==> HighOf(base, size) == base + size - 1
  {
    if 0 < size && ADDRESS_SPACE < base + size {
      assert HighOf(base, size) == base + size - 1 - ADDRESS_SPACE;
    }
  }

  /** StoreRange answers true exactly for the admissible requests; a refused
      request leaves the history, and so every answer, as it was. */
  lemma StoreDecides<E(!new)>(h: History<E>, op: Op<E>, allowEqual: bool)
    requires Consistent(h, allowEqual) && op.Put?
    ensures StoreRange(h.forest, op.base, op.size, op.entry, allowEqual).0 <==> Admissible(h.log, op, allowEqual)
    ensures Admissible(h.log, op, allowEqual) ==>
              Step(h, op, allowEqual).log == h.log + [op.Span()]
    ensures !Admissible(h.log, op, allowEqual) ==>
              Step(h, op, allowEqual) == h
              && StoreRange(h.forest, op.base, op.size, op.entry, allowEqual).1 == h.forest
  {
    HighOfProper(op.base, op.size);
    if op.Proper() {
      var s := op.Span();
      assert StoreRange(h.forest, op.base, op.size, op.entry, allowEqual).0 <==> Store(h.forest, s, allowEqual).Some?;
      StoreAccepts(h.forest, 0, ADDRESS_SPACE - 1, s, allowEqual);
      FitsLog(h.forest, h.log, op, allowEqual);
    }
  }

  lemma FitsLog<E(!new)>(f: Forest<E>, log: seq<Span<E>>, op: Op<E>, allowEqual: bool)
    requires op.Proper() && forall t :: Holds(f, t) <==> t in log
    ensures Fits(f, op.Span(), allowEqual) <==> Admissible(log, op, allowEqual)
  {
    var s := op.Span();
    if Admissible(log, op, allowEqual) {
      forall t | Holds(f, t) ensures !t.Crosses(s) && (allowEqual || !t.SameGeometry(s)) {
        assert t in log;
      }
    }
    if Fits(f, s, allowEqual) {
      forall t | t in log ensures !t.Crosses(s) && (allowEqual || !t.SameGeometry(s)) {
        assert Holds(f, t);
      }
    }
  }

  lemma StepConsistent<E(!new)>(h: History<E>, op: Op<E>, allowEqual: bool)
    requires Consistent(h, allowEqual)
    ensures Consistent(Step(h, op, allowEqual), allowEqual)
  {
    if op.Put? {
      StoreDecides(h, op, allowEqual);
      if Admissible(h.log, op, allowEqual) {
        PutConsistent(h, op, allowEqual);
      }
    }
  }

  lemma LaminarSnoc<E>(log: seq<Span<E>>, s: Span<E>, allowEqual: bool)
    requires Laminar(log, allowEqual) && 0 <= s.base <= s.high < ADDRESS_SPACE
    requires forall t | t in log :: !t.Crosses(s) && (allowEqual || !t.SameGeometry(s))
    ensures Laminar(log + [s], allowEqual)
  {
    var k := log + [s];
    forall i, j | 0 <= i < j < |k| ensures !k[i].Crosses(k[j]) && (allowEqual || !k[i].SameGeometry(k[j])) {
      assert k[i] in log;
    }
  }

  lemma PutConsistent<E(!new)>(h: History<E>, op: Op<E>, allowEqual: bool)
    requires Consistent(h, allowEqual) && Admissible(h.log, op, allowEqual)
    ensures Consistent(Step(h, op, allowEqual), allowEqual)
  {
    var s := op.Span();
    var k := Step(h, op, allowEqual);
    assert Store(h.forest, s, allowEqual) == Some(k.forest) && k.log == h.log + [s] by {
      HighOfProper(op.base, op.size);
      StoreDecides(h, op, allowEqual);
    }
    StoreWellFormed(h.forest, 0, ADDRESS_SPACE - 1, s, allowEqual);
    forall t ensures Holds(k.forest, t) <==> t in k.log {
      StoreHolds(h.forest, s, allowEqual, t);
    }
    forall address ensures Retrieve(k.forest, address) == Chain(k.log, address) {
      StoreRetrieve(h.forest, 0, ADDRESS_SPACE - 1, s, allowEqual, address);
      assert k.log[..|k.log| - 1] == h.log;
    }
    LaminarSnoc(h.log, s, allowEqual);
  }

  /** Every run of StoreRange and Clear calls keeps the tree well formed, holding
      exactly the accepted ranges, and answering from them. */
  lemma {:induction false} RunConsistent<E(!new)>(ops: seq<Op<E>>, allowEqual: bool)
    ensures Consistent(Run(ops, allowEqual), allowEqual)
  {
    if ops != [] {
      RunConsistent(ops[..|ops| - 1], allowEqual);
      StepConsistent(Run(ops[..|ops| - 1], allowEqual), ops[|ops| - 1], allowEqual);
    }
  }

  lemma RunAnswers<E(!new)>(ops: seq<Op<E>>, allowEqual: bool, address: int)
    ensures Retrieve(Run(ops, allowEqual).forest, address) == Chain(Run(ops, allowEqual).log, address)
  {
    RunConsistent(ops, allowEqual);
  }

  // -------------------------------------------------- what retrieval means

  /** Accepted range i lies inside accepted range j; equal ranges, latest inside. */
  ghost predicate Inside<E>(log: seq<Span<E>>, i: nat, j: nat) {
    i < |log| && j < |log| && log[j].Contains(log[i]) && (log[i].SameGeometry(log[j]) ==> i > j)
  }

  /** `idx` lists exactly the accepted ranges covering an address, innermost first. */
  ghost predicate Ranks<E>(idx: seq<nat>, log: seq<Span<E>>, address: int) {
    && (forall i | 0 <= i < |idx| :: idx[i] < |log| && log[idx[i]].Covers(address))
    && (forall k: nat | k < |log| && log[k].Covers(address) :: k in idx)
    && Inward(idx, log)
  }

  ghost predicate Inward<E>(idx: seq<nat>, log: seq<Span<E>>) {
    forall i, j | 0 <= i < j < |idx| :: Inside(log, idx[i], idx[j])
  }

  ghost predicate Below(idx: seq<nat>, n: nat) {
    forall i | 0 <= i < |idx| :: idx[i] < n
  }

  ghost function Select<E>(log: seq<Span<E>>, idx: seq<nat>): seq<Span<E>>
    requires Below(idx, |log|)
  {
    seq(|idx|, i requires 0 <= i < |idx| => log[idx[i]])
  }

  ghost function NestIndex<E>(idx: seq<nat>, log: seq<Span<E>>, n: nat): (r: seq<nat>)
    requires n < |log| && Below(idx, |log|)
    ensures Below(r, |log|)
    ensures forall k: nat :: k in r <==> k in idx || k == n
  {
    if idx == [] || log[idx[0]].Contains(log[n]) then [n] + idx
    else [idx[0]] + NestIndex(idx[1..], log, n)
  }

  lemma {:induction false} NestIndexRanks<E>(idx: seq<nat>, log: seq<Span<E>>, n: nat, address: int)
    requires n == |log| - 1 && log[n].Covers(address)
    requires Below(idx, n)
    requires forall i | 0 <= i < |idx| :: log[idx[i]].Covers(address) && !log[idx[i]].Crosses(log[n])
    requires Inward(idx, log)
    ensures Inward(NestIndex(idx, log, n), log)
  {
    if idx == [] {
    } else if log[idx[0]].Contains(log[n]) {
      forall j | 0 <= j < |idx| ensures Inside(log, n, idx[j]) {
        assert j > 0 ==> Inside(log, idx[0], idx[j]);
      }
    } else {
      var rest := NestIndex(idx[1..], log, n);
      NestIndexRanks(idx[1..], log, n, address);
      assert Inside(log, idx[0], n);
      forall i | 0 <= i < |rest| ensures Inside(log, idx[0], rest[i]) {
        assert rest[i] in rest;
        if rest[i] != n {
          var j :| 0 <= j < |idx[1..]| && idx[1..][j] == rest[i];
          assert Inside(log, idx[0], idx[j + 1]);
        }
      }
      var r := [idx[0]] + rest;
      forall i, j | 0 <= i < j < |r| ensures Inside(log, r[i], r[j]) {
        if i > 0 {
          assert Inside(log, rest[i - 1], rest[j - 1]);
        } else {
          assert Inside(log, idx[0], rest[j - 1]);
        }
      }
    }
  }

  lemma {:induction false} NestIndexSelects<E>(idx: seq<nat>, log: seq<Span<E>>, n: nat)
    requires n < |log| && Below(idx, |log|)
    ensures Select(log, NestIndex(idx, log, n)) == Nest(Select(log, idx), log[n])
  {
    if idx == [] {
    } else if log[idx[0]].Contains(log[n]) {
      assert Select(log, [n] + idx) == [log[n]] + Select(log, idx);
    } else {
      NestIndexSelects(idx[1..], log, n);
      assert Select(log, idx)[1..] == Select(log, idx[1..]);
      var rest := NestIndex(idx[1..], log, n);
      assert Select(log, [idx[0]] + rest) == [log[idx[0]]] + Select(log, rest);
    }
  }

  /** The listing built up range by range. */
  lemma {:induction false} ChainRanks<E>(log: seq<Span<E>>, allowEqual: bool, address: int) returns (idx: seq<nat>)
    requires Laminar(log, allowEqual)
    ensures Ranks(idx, log, address) && Chain(log, address) == Select(log, idx)
  {
    if log == [] {
      idx := [];
    } else {
      var n := |log| - 1;
      var front := log[..n];
      var rest := ChainRanks(front, allowEqual, address);
      assert Select(log, rest) == Select(front, rest);
      InsideFront(log, n, rest);
      if log[n].Covers(address) {
        idx := NestIndex(rest, log, n);
        NestIndexRanks(rest, log, n, address);
        NestIndexSelects(rest, log, n);
        forall i | 0 <= i < |idx| ensures log[idx[i]].Covers(address) {
          assert idx[i] in idx;
        }
      } else {
        idx := rest;
      }
    }
  }

  lemma InsideFront<E>(log: seq<Span<E>>, n: nat, idx: seq<nat>)
    requires n < |log| && Inward(idx, log[..n])
    ensures Inward(idx, log)
  {
    forall i, j | 0 <= i < j < |idx| ensures Inside(log, idx[i], idx[j]) {
      assert Inside(log[..n], idx[i], idx[j]);
    }
  }

  /** After any run, RetrieveRanges lists exactly the accepted ranges covering the
      address: containment order, innermost first, equal ranges latest first. */
  lemma RunRetrieves<E(!new)>(ops: seq<Op<E>>, allowEqual: bool, address: int) returns (idx: seq<nat>)
    ensures Ranks(idx, Run(ops, allowEqual).log, address)
    ensures Retrieve(Run(ops, allowEqual).forest, address) == Select(Run(ops, allowEqual).log, idx)
  {
    RunConsistent(ops, allowEqual);
    var h := Run(ops, allowEqual);
    idx := ChainRanks(h.log, allowEqual, address);
    assert Retrieve(h.forest, address) == Chain(h.log, address);
  }

  lemma HeadIn<T>(a: seq<T>)
    requires a != []
    ensures a[0] in a
  {
  }

  lemma HeadBefore<T(!new)>(a: seq<T>, x: T, before: (T, T) -> bool)
    requires forall i, j | 0 <= i < j < |a| :: before(a[i], a[j])
    requires x in a && x != a[0]
    ensures before(a[0], x)
  {
  }

  /** A strictly ordered listing of a set is unique. */
  lemma {:induction false} StrictListingUnique<T(!new)>(a: seq<T>, b: seq<T>, before: (T, T) -> bool)
    requires forall i, j | 0 <= i < j < |a| :: before(a[i], a[j])
    requires forall i, j | 0 <= i < j < |b| :: before(b[i], b[j])
    requires forall x, y :: before(x, y) ==> !before(y, x)
    requires forall x :: x in a <==> x in b
    ensures a == b
  {
    if a == [] {
      if b != [] {
        HeadIn(b);
        assert false;
      }
    } else {
      assert a[0] in b && a[0] in a;
      assert b[0] in a && b[0] in b;
      if a[0] != b[0] {
        HeadBefore(b, a[0], before);
        HeadBefore(a, b[0], before);
        assert false;
      }
      forall x ensures x in a[1..] <==> x in b[1..] {
        if x in a[1..] {
          var k :| 0 <= k < |a[1..]| && a[1..][k] == x;
          assert before(a[0], a[k + 1]) && x in b;
        }
        if x in b[1..] {
          var k :| 0 <= k < |b[1..]| && b[1..][k] == x;
          assert before(b[0], b[k + 1]) && x in a;
        }
      }
      StrictListingUnique(a[1..], b[1..], before);
      assert a == [a[0]] + a[1..] && b == [b[0]] + b[1..];
    }
  }

  /** The listing RunRetrieves speaks of is the only one. */
  lemma RanksUnique<E>(a: seq<nat>, b: seq<nat>, log: seq<Span<E>>, address: int)
    requires Ranks(a, log, address) && Ranks(b, log, address)
    ensures a == b
  {
    StrictListingUnique(a, b, (i: nat, j: nat) => Inside(log, i, j));
  }

  // ------------------------------------------------- order of insertion

  /** Pairwise non-crossing ranges of different geometry. */
  ghost predicate NonCrossing<E>(ops: seq<Op<E>>) {
    && (forall i | 0 <= i < |ops| :: ops[i].Proper())
    && (forall i, j | 0 <= i < j < |ops| ::
          !ops[i].Span().Crosses(ops[j].Span()) && !ops[i].Span().SameGeometry(ops[j].Span()))
  }

  ghost function Spans<E>(ops: seq<Op<E>>): seq<Span<E>>
    requires forall i | 0 <= i < |ops| :: ops[i].Proper()
  {
    seq(|ops|, i requires 0 <= i < |ops| => ops[i].Span())
  }

  /** A run of requests that cross nothing, and repeat nothing unless allowed, is
      accepted in full. */
  lemma {:induction false} LaminarAccepted<E(!new)>(ops: seq<Op<E>>, allowEqual: bool)
    requires forall i | 0 <= i < |ops| :: ops[i].Proper()
    requires Laminar(Spans(ops), allowEqual)
    ensures Run(ops, allowEqual).log == Spans(ops)
  {
    if ops != [] {
      var n := |ops| - 1;
      assert Spans(ops) == Spans(ops[..n]) + [ops[n].Span()];
      assert forall i | 0 <= i < n :: Spans(ops[..n])[i] == Spans(ops)[i];
      LaminarAccepted(ops[..n], allowEqual);
      RunConsistent(ops[..n], allowEqual);
      var h := Run(ops[..n], allowEqual);
      assert Admissible(h.log, ops[n], allowEqual) by {
        forall t | t in h.log ensures !t.Crosses(ops[n].Span()) && (allowEqual || !t.SameGeometry(ops[n].Span())) {
          var i :| 0 <= i < |h.log| && h.log[i] == t;
          assert t == Spans(ops)[i] && ops[n].Span() == Spans(ops)[n];
        }
      }
      StoreDecides(h, ops[n], allowEqual);
    }
  }

  lemma ApartAccepted<E(!new)>(ops: seq<Op<E>>, allowEqual: bool)
    requires NonCrossing(ops)
    ensures Run(ops, allowEqual).log == Spans(ops)
  {
    assert Laminar(Spans(ops), allowEqual);
    LaminarAccepted(ops, allowEqual);
  }

  predicate SeparateOps<E>(a: Op<E>, b: Op<E>) {
    a.Proper() && b.Proper() && !a.Span().Crosses(b.Span()) && !a.Span().SameGeometry(b.Span())
  }

  lemma ApartPermuted<E>(a: seq<Op<E>>, b: seq<Op<E>>)
    requires NonCrossing(a) && multiset(a) == multiset(b)
    ensures NonCrossing(b)
  {
    var separate := (x: Op<E>, y: Op<E>) => SeparateOps(x, y);
    forall i, j | 0 <= i < |a| && 0 <= j < |a| && i != j ensures separate(a[i], a[j]) {
      var p, q := if i < j then i else j, if i < j then j else i;
      assert !a[p].Span().Crosses(a[q].Span());
    }
    PairwisePermuted(a, b, separate);
    forall i | 0 <= i < |b| ensures b[i].Proper() {
      SameMembers(a, b, b[i]);
    }
    forall i, j | 0 <= i < j < |b|
      ensures !b[i].Span().Crosses(b[j].Span()) && !b[i].Span().SameGeometry(b[j].Span())
    {
      assert separate(b[i], b[j]);
    }
  }

  /** Spans listed from the inside out, each strictly inside the next. */
  ghost predicate StrictlyNested<E>(r: seq<Span<E>>) {
    forall i, j | 0 <= i < j < |r| :: StrictlyInside(r[i], r[j])
  }

  ghost predicate StrictlyInside<E>(s: Span<E>, t: Span<E>) {
    t.Contains(s) && !s.SameGeometry(t)
  }

  lemma SelectMembers<E(!new)>(log: seq<Span<E>>, idx: seq<nat>, address: int, s: Span<E>)
    requires Ranks(idx, log, address)
    ensures s in Select(log, idx) <==> s in log && s.Covers(address)
  {
    var r := Select(log, idx);
    if s in r {
      var i :| 0 <= i < |r| && r[i] == s;
      assert s == log[idx[i]];
    }
    if s in log && s.Covers(address) {
      var k: nat :| k < |log| && log[k] == s;
      var i :| 0 <= i < |idx| && idx[i] == k;
      assert r[i] == s;
    }
  }

  /** The answers of a run over ranges of different geometry: the covering ranges,
      each strictly inside the next. */
  lemma ApartRetrieves<E(!new)>(ops: seq<Op<E>>, allowEqual: bool, address: int)
    requires NonCrossing(ops)
    ensures var r := Retrieve(Run(ops, allowEqual).forest, address);
            StrictlyNested(r) && forall s :: s in r <==> s in Spans(ops) && s.Covers(address)
  {
    ApartAccepted(ops, allowEqual);
    var log := Spans(ops);
    var idx := RunRetrieves(ops, allowEqual, address);
    var r := Select(log, idx);
    forall s ensures s in r <==> s in log && s.Covers(address) {
      SelectMembers(log, idx, address, s);
    }
    forall i, j | 0 <= i < j < |r| ensures StrictlyInside(r[i], r[j]) {
      assert Inside(log, idx[i], idx[j]);
      ApartDistinct(ops, idx[j], idx[i]);
    }
  }

  lemma ApartDistinct<E>(ops: seq<Op<E>>, i: nat, j: nat)
    requires NonCrossing(ops) && i < |ops| && j < |ops| && i != j
    ensures !Spans(ops)[i].SameGeometry(Spans(ops)[j])
  {
    var p, q := if i < j then i else j, if i < j then j else i;
    assert !ops[p].Span().SameGeometry(ops[q].Span());
  }

  lemma SameSpansSameAnswers<E(!new)>(a: seq<Op<E>>, b: seq<Op<E>>, allowEqual: bool, address: int)
    requires NonCrossing(a) && NonCrossing(b)
    requires forall s :: s in Spans(a) <==> s in Spans(b)
    ensures Retrieve(Run(a, allowEqual).forest, address) == Retrieve(Run(b, allowEqual).forest, address)
  {
    ApartRetrieves(a, allowEqual, address);
    ApartRetrieves(b, allowEqual, address);
    NestedUnique(Retrieve(Run(a, allowEqual).forest, address), Retrieve(Run(b, allowEqual).forest, address));
  }

  lemma NestedUnique<E(!new)>(a: seq<Span<E>>, b: seq<Span<E>>)
    requires StrictlyNested(a) && StrictlyNested(b) && forall s :: s in a <==> s in b
    ensures a == b
  {
    StrictListingUnique(a, b, (s: Span<E>, t: Span<E>) => StrictlyInside(s, t));
  }

  lemma SpansPermuted<E(!new)>(a: seq<Op<E>>, b: seq<Op<E>>)
    requires (forall i | 0 <= i < |a| :: a[i].Proper()) && (forall i | 0 <= i < |b| :: b[i].Proper())
    requires multiset(a) == multiset(b)
    ensures forall s :: s in Spans(a) <==> s in Spans(b)
  {
    forall s ensures s in Spans(a) <==> s in Spans(b) {
      if s in Spans(a) {
        SpanPermuted(a, b, s);
      }
      if s in Spans(b) {
        SpanPermuted(b, a, s);
      }
    }
  }

  lemma SpanPermuted<E>(a: seq<Op<E>>, b: seq<Op<E>>, s: Span<E>)
    requires (forall i | 0 <= i < |a| :: a[i].Proper()) && (forall i | 0 <= i < |b| :: b[i].Proper())
    requires multiset(a) == multiset(b) && s in Spans(a)
    ensures s in Spans(b)
  {
    var i :| 0 <= i < |a| && Spans(a)[i] == s;
    assert a[i] in multiset(b);
    var j :| 0 <= j < |b| && b[j] == a[i];
    assert Spans(b)[j] == s;
  }

  /** Any two insertion orders of the same pairwise non-crossing ranges of
      different geometry are accepted in full and answer every query alike. */
  lemma OrderIndependent<E(!new)>(a: seq<Op<E>>, b: seq<Op<E>>, allowEqual: bool, address: int)
    requires NonCrossing(a) && multiset(a) == multiset(b)
    ensures |Run(a, allowEqual).log| == |a| && |Run(b, allowEqual).log| == |b|
    ensures Retrieve(Run(a, allowEqual).forest, address) == Retrieve(Run(b, allowEqual).forest, address)
  {
    ApartPermuted(a, b);
    ApartAccepted(a, allowEqual);
    ApartAccepted(b, allowEqual);
    SpansPermuted(a, b);
    SameSpansSameAnswers(a, b, allowEqual, address);
  }
}
