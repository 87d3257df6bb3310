/** The abstract value of a hierarchical range map: a forest of nested address
    ranges, the pure form of storing and retrieving, and what both mean in terms
    of the flat list of accepted ranges. */
module RangeForest {
  import opened Wrappers

  /** A stored range: first address, last address, entry. */
  datatype Span<+E> = Span(base: int, high: int, entry: E) {
    predicate Covers(address: int) {
      base <= address <= high
    }

    predicate Contains<F>(inner: Span<F>) {
      base <= inner.base && inner.high <= high
    }

    predicate SameGeometry<F>(that: Span<F>) {
      base == that.base && high == that.high
    }

    predicate Disjoint<F>(that: Span<F>) {
      high < that.base || that.high < base
    }

    /** The two overlap and neither contains the other. */
    predicate Crosses<F>(that: Span<F>) {
      !Disjoint(that) && !Contains(that) && !that.Contains(this)
    }
  }

  datatype Tree<+E> = Tree(span: Span<E>, kids: seq<Tree<E>>)

  type Forest<+E> = seq<Tree<E>>

  /** Siblings are keyed by ascending high address, disjoint, and lie in [lo, hi]. */
  ghost predicate Siblings<E>(f: Forest<E>, lo: int, hi: int) {
    && (forall i | 0 <= i < |f| :: lo <= f[i].span.base <= f[i].span.high <= hi)
    && (forall i, j | 0 <= i < j < |f| :: Before(f, i, j))
  }

  ghost predicate Before<E>(f: Forest<E>, i: nat, j: nat)
    requires i < |f| && j < |f|
  {
    f[i].span.high < f[j].span.base
  }

  lemma InOrder<E>(f: Forest<E>, lo: int, hi: int, i: nat, j: nat)
    requires Siblings(f, lo, hi) && i < |f| && j < |f|
    ensures i < j ==> f[i].span.high < f[j].span.base
  {
    if i < j {
      assert Before(f, i, j);
    }
  }

  /** At every level the siblings are in order and lie inside their parent's range. */
  ghost predicate WellFormed<E>(f: Forest<E>, lo: int, hi: int)
    decreases f
  {
    && Siblings(f, lo, hi)
    && (forall i | 0 <= i < |f| :: WellFormed(f[i].kids, f[i].span.base, f[i].span.high))
  }

  /** The range is stored somewhere in the forest. */
  ghost predicate Holds<E(!new)>(f: Forest<E>, s: Span<E>)
    decreases f
  {
    exists i | 0 <= i < |f| :: f[i].span == s || Holds(f[i].kids, s)
  }

  /** First sibling whose high address is at least `key`. */
  function LowerBound<E>(f: Forest<E>, key: int): (r: nat)
    ensures r <= |f|
    ensures forall i | 0 <= i < r :: f[i].span.high < key
    ensures r < |f| ==> key <= f[r].span.high
  {
    if f == [] || key <= f[0].span.high then 0 else 1 + LowerBound(f[1..], key)
  }

  /** The new range lies entirely within an existing sibling. */
  predicate GoesBelow<E>(f: Forest<E>, s: Span<E>) {
    var ib := LowerBound(f, s.base);
    ib == LowerBound(f, s.high) && ib < |f| && f[ib].span.base <= s.base
  }

  /** Storing a range among the siblings `f`; None when it is refused. */
  function Store<E>(f: Forest<E>, s: Span<E>, allowEqual: bool): Option<Forest<E>>
    requires s.base <= s.high
    decreases f
  {
    if GoesBelow(f, s) then
      var ib := LowerBound(f, s.base);
      if !allowEqual && f[ib].span.SameGeometry(s) then None
      else
        match Store(f[ib].kids, s, allowEqual)
        case None => None
        case Some(kids) => Some(f[ib := Tree(f[ib].span, kids)])
    else
      Place(f, s)
  }

  /** One past the last sibling that a range placed at this level contains. */
  function PlaceEnd<E>(f: Forest<E>, s: Span<E>): (ie: nat)
    requires s.base <= s.high
    ensures LowerBound(f, s.base) <= ie <= |f|
  {
    var ih := LowerBound(f, s.high);
    var containsHigh := ih < |f| && f[ih].span.base <= s.high;
    if containsHigh then ih + 1 else ih
  }

  /** A sibling overlaps the new range without lying inside it. */
  predicate PartlyContains<E>(f: Forest<E>, s: Span<E>) {
    var ib := LowerBound(f, s.base);
    var ih := LowerBound(f, s.high);
    || (ib < |f| && f[ib].span.base < s.base)
    || (ih < |f| && f[ih].span.base <= s.high && s.high < f[ih].span.high)
  }

  /** Storing at this level: the siblings the new range contains become its children. */
  function Place<E>(f: Forest<E>, s: Span<E>): Option<Forest<E>>
    requires s.base <= s.high
  {
    if PartlyContains(f, s) then None
    else
      var ib := LowerBound(f, s.base);
      var ie := PlaceEnd(f, s);
      Some(f[..ib] + [Tree(s, f[ib..ie])] + f[ie..])
  }

  /** The ranges covering an address, innermost first. */
  function Retrieve<E>(f: Forest<E>, address: int): seq<Span<E>>
    decreases f
  {
    var i := LowerBound(f, address);
    if i == |f| || address < f[i].span.base then []
    else Retrieve(f[i].kids, address) + [f[i].span]
  }

  function Entries<E>(chain: seq<Span<E>>): seq<E> {
    seq(|chain|, i requires 0 <= i < |chain| => chain[i].entry)
  }

  // ---------------------------------------------------------------- storing

  /** What StoreRange is documented to demand of a new range. */
  ghost predicate Fits<E(!new)>(f: Forest<E>, s: Span<E>, allowEqual: bool) {
    forall t | Holds(f, t) :: !t.Crosses(s) && (allowEqual || !t.SameGeometry(s))
  }

  lemma {:induction false} HeldInside<E(!new)>(f: Forest<E>, lo: int, hi: int, t: Span<E>)
    requires WellFormed(f, lo, hi) && Holds(f, t)
    ensures lo <= t.base <= t.high <= hi
    decreases f
  {
    var i :| 0 <= i < |f| && (f[i].span == t || Holds(f[i].kids, t));
    if f[i].span != t {
      HeldInside(f[i].kids, f[i].span.base, f[i].span.high, t);
    }
  }

  /** A held range lies inside one of the siblings. */
  lemma HeldUnder<E(!new)>(f: Forest<E>, lo: int, hi: int, t: Span<E>) returns (i: nat)
    requires WellFormed(f, lo, hi) && Holds(f, t)
    ensures i < |f| && f[i].span.Contains(t) && (f[i].span == t || Holds(f[i].kids, t))
  {
    i :| 0 <= i < |f| && (f[i].span == t || Holds(f[i].kids, t));
    if f[i].span != t {
      HeldInside(f[i].kids, f[i].span.base, f[i].span.high, t);
    }
  }

  /** `g` is `f` with the siblings ib..ie replaced by `t`. */
  ghost predicate Splices<E>(f: Forest<E>, g: Forest<E>, ib: nat, ie: nat, t: Tree<E>) {
    && ib <= ie <= |f| && |g| == |f| - (ie - ib) + 1
    && (forall i | 0 <= i < ib :: g[i] == f[i])
    && g[ib] == t
    && (forall i | ib < i < |g| :: g[i] == f[i - ib - 1 + ie])
  }

  lemma SpliceIndex<T>(a: seq<T>, ib: nat, ie: nat, x: T, i: nat)
    requires ib <= ie <= |a| && i < |a| - (ie - ib) + 1
    ensures (a[..ib] + [x] + a[ie..])[i] == if i < ib then a[i] else if i == ib then x else a[i - ib - 1 + ie]
  {
  }

  lemma SpliceOf<E>(f: Forest<E>, ib: nat, ie: nat, t: Tree<E>)
    requires ib <= ie <= |f|
    ensures Splices(f, f[..ib] + [t] + f[ie..], ib, ie, t)
  {
  }

  lemma SpliceSiblings<E>(f: Forest<E>, g: Forest<E>, lo: int, hi: int, ib: nat, ie: nat, t: Tree<E>)
    requires Siblings(f, lo, hi) && Splices(f, g, ib, ie, t)
    requires lo <= t.span.base <= t.span.high <= hi
    requires forall i | 0 <= i < ib :: f[i].span.high < t.span.base
    requires forall i | ie <= i < |f| :: t.span.high < f[i].span.base
    ensures Siblings(g, lo, hi)
  {
    forall i, j | 0 <= i < j < |g| ensures Before(g, i, j) {
      var p := if i < ib then i else i - ib - 1 + ie;
      var q := if j < ib then j else j - ib - 1 + ie;
      if i != ib && j != ib {
        InOrder(f, lo, hi, p, q);
      }
    }
  }

  lemma SpliceWellFormed<E>(f: Forest<E>, g: Forest<E>, lo: int, hi: int, ib: nat, ie: nat, t: Tree<E>)
    requires WellFormed(f, lo, hi) && Splices(f, g, ib, ie, t)
    requires lo <= t.span.base <= t.span.high <= hi && WellFormed(t.kids, t.span.base, t.span.high)
    requires forall i | 0 <= i < ib :: f[i].span.high < t.span.base
    requires forall i | ie <= i < |f| :: t.span.high < f[i].span.base
    ensures WellFormed(g, lo, hi)
  {
    SpliceSiblings(f, g, lo, hi, ib, ie, t);
    forall i | 0 <= i < |g| ensures WellFormed(g[i].kids, g[i].span.base, g[i].span.high) {
      if i != ib {
        var k := if i < ib then i else i - ib - 1 + ie;
        assert g[i] == f[k];
        ChildWellFormed(f, lo, hi, k);
      }
    }
  }

  lemma ChildWellFormed<E>(f: Forest<E>, lo: int, hi: int, k: nat)
    requires WellFormed(f, lo, hi) && k < |f|
    ensures WellFormed(f[k].kids, f[k].span.base, f[k].span.high)
  {
  }

  /** `r` is the first sibling whose high address is at least `key`. */
  ghost predicate IsLowerBound<E>(f: Forest<E>, key: int, r: nat) {
    && r <= |f|
    && (forall i | 0 <= i < r :: f[i].span.high < key)
    && (r < |f| ==> key <= f[r].span.high)
  }

  lemma PlaceBoundAt<E>(f: Forest<E>, lo: int, hi: int, s: Span<E>, ib: nat, ih: nat, i: nat)
    requires Siblings(f, lo, hi) && s.base <= s.high && i < |f|
    requires IsLowerBound(f, s.base, ib) && IsLowerBound(f, s.high, ih)
    requires ib < |f| ==> s.base <= f[ib].span.base
    requires ib == ih < |f| ==> s.base < f[ib].span.base || f[ib].span.base > s.high
    requires ih < |f| ==> s.high < f[ih].span.base || f[ih].span.high <= s.high
    ensures var t := f[i].span;
            var ie := if ih < |f| && f[ih].span.base <= s.high then ih + 1 else ih;
            if i < ib then t.high < s.base
            else if i < ie then s.Contains(t) && !t.Contains(s)
            else s.high < t.base
  {
    if ib < i {
      InOrder(f, lo, hi, ib, i);
    }
    if ih < i {
      InOrder(f, lo, hi, ih, i);
    }
    if i < ih < |f| {
      InOrder(f, lo, hi, i, ih);
    }
  }

  /** Where a placed range lies among the siblings. */
  lemma PlaceBounds<E>(f: Forest<E>, lo: int, hi: int, s: Span<E>)
    requires Siblings(f, lo, hi) && s.base <= s.high
    requires !GoesBelow(f, s) && !PartlyContains(f, s)
    ensures var ib, ie := LowerBound(f, s.base), PlaceEnd(f, s);
            && (forall i | 0 <= i < ib :: f[i].span.high < s.base)
            && (forall i | ib <= i < ie :: s.base <= f[i].span.base && f[i].span.high <= s.high)
            && (forall i | ib <= i < ie :: !f[i].span.Contains(s))
            && (forall i | ie <= i < |f| :: s.high < f[i].span.base)
  {
    forall i | 0 <= i < |f|
      ensures var ib, ie := LowerBound(f, s.base), PlaceEnd(f, s);
              var t := f[i].span;
              if i < ib then t.high < s.base
              else if i < ie then s.Contains(t) && !t.Contains(s)
              else s.high < t.base
    {
      PlaceBoundAt(f, lo, hi, s, LowerBound(f, s.base), LowerBound(f, s.high), i);
    }
  }

  lemma SliceWellFormed<E>(f: Forest<E>, lo: int, hi: int, ib: nat, ie: nat, lo': int, hi': int)
    requires WellFormed(f, lo, hi) && ib <= ie <= |f|
    requires forall i | ib <= i < ie :: lo' <= f[i].span.base && f[i].span.high <= hi'
    ensures WellFormed(f[ib..ie], lo', hi')
  {
    var mid := f[ib..ie];
    assert forall i | 0 <= i < |mid| :: mid[i] == f[ib + i];
    forall i, j | 0 <= i < j < |mid| ensures Before(mid, i, j) {
      InOrder(f, lo, hi, ib + i, ib + j);
    }
    forall i | 0 <= i < |mid| ensures WellFormed(mid[i].kids, mid[i].span.base, mid[i].span.high) {
      assert mid[i] == f[ib + i];
    }
  }

  lemma PlaceWellFormed<E>(f: Forest<E>, lo: int, hi: int, s: Span<E>)
    requires WellFormed(f, lo, hi) && lo <= s.base <= s.high <= hi
    requires !GoesBelow(f, s) && Place(f, s).Some?
    ensures WellFormed(Place(f, s).value, lo, hi)
  {
    var ib, ie := LowerBound(f, s.base), PlaceEnd(f, s);
    PlaceBounds(f, lo, hi, s);
    SliceWellFormed(f, lo, hi, ib, ie, s.base, s.high);
    SpliceOf(f, ib, ie, Tree(s, f[ib..ie]));
    SpliceWellFormed(f, Place(f, s).value, lo, hi, ib, ie, Tree(s, f[ib..ie]));
  }

  /** Storing keeps siblings keyed, disjoint and nested. */
  lemma {:induction false} StoreWellFormed<E(!new)>(f: Forest<E>, lo: int, hi: int, s: Span<E>, allowEqual: bool)
    requires WellFormed(f, lo, hi) && lo <= s.base <= s.high <= hi
    requires Store(f, s, allowEqual).Some?
    ensures WellFormed(Store(f, s, allowEqual).value, lo, hi)
    decreases f
  {
    if GoesBelow(f, s) {
      var ib := LowerBound(f, s.base);
      var kids := Store(f[ib].kids, s, allowEqual).value;
      StoreWellFormed(f[ib].kids, f[ib].span.base, f[ib].span.high, s, allowEqual);
      var g := f[ib := Tree(f[ib].span, kids)];
      forall i, j | 0 <= i < j < |g| ensures Before(g, i, j) {
        InOrder(f, lo, hi, i, j);
      }
      assert WellFormed(g, lo, hi);
    } else {
      PlaceWellFormed(f, lo, hi, s);
    }
  }

  lemma PlaceAccepts<E(!new)>(f: Forest<E>, lo: int, hi: int, s: Span<E>, allowEqual: bool)
    requires WellFormed(f, lo, hi) && s.base <= s.high && !GoesBelow(f, s)
    ensures !PartlyContains(f, s) <==> Fits(f, s, allowEqual)
  {
    if PartlyContains(f, s) {
      var ib, ih := LowerBound(f, s.base), LowerBound(f, s.high);
      var k := if ib < |f| && f[ib].span.base < s.base then ib else ih;
      if ib < ih < |f| {
        InOrder(f, lo, hi, ib, ih);
      }
      assert Holds(f, f[k].span) && f[k].span.Crosses(s);
    } else {
      PlaceBounds(f, lo, hi, s);
      forall t | Holds(f, t) ensures !t.Crosses(s) && (allowEqual || !t.SameGeometry(s)) {
        var i := HeldUnder(f, lo, hi, t);
        HeldInside(f, lo, hi, t);
      }
    }
  }

  /** A range is accepted exactly when it crosses nothing stored anywhere in the
      tree and, unless equal ranges are allowed, repeats nothing. */
  lemma {:induction false} StoreAccepts<E(!new)>(f: Forest<E>, lo: int, hi: int, s: Span<E>, allowEqual: bool)
    requires WellFormed(f, lo, hi) && s.base <= s.high
    ensures Store(f, s, allowEqual).Some? <==> Fits(f, s, allowEqual)
    decreases f
  {
    if GoesBelow(f, s) {
      var ib := LowerBound(f, s.base);
      StoreAccepts(f[ib].kids, f[ib].span.base, f[ib].span.high, s, allowEqual);
      FitsBelow(f, lo, hi, ib, s, allowEqual);
    } else {
      PlaceAccepts(f, lo, hi, s, allowEqual);
    }
  }

  lemma FitsBelow<E(!new)>(f: Forest<E>, lo: int, hi: int, k: nat, s: Span<E>, allowEqual: bool)
    requires WellFormed(f, lo, hi) && s.base <= s.high
    requires k < |f| && f[k].span.Contains(s)
    ensures Fits(f, s, allowEqual) <==>
            Fits(f[k].kids, s, allowEqual) && (allowEqual || !f[k].span.SameGeometry(s))
  {
    if Fits(f[k].kids, s, allowEqual) && (allowEqual || !f[k].span.SameGeometry(s)) {
      forall t | Holds(f, t) ensures !t.Crosses(s) && (allowEqual || !t.SameGeometry(s)) {
        var i := HeldUnder(f, lo, hi, t);
        HeldInside(f, lo, hi, t);
        InOrder(f, lo, hi, i, k);
        InOrder(f, lo, hi, k, i);
      }
    }
    assert Holds(f, f[k].span);
  }

  /** An accepted range is added to the stored ranges and nothing else changes. */
  lemma {:induction false} StoreHolds<E(!new)>(f: Forest<E>, s: Span<E>, allowEqual: bool, t: Span<E>)
    requires s.base <= s.high && Store(f, s, allowEqual).Some?
    ensures Holds(Store(f, s, allowEqual).value, t) <==> Holds(f, t) || t == s
    decreases f
  {
    var g := Store(f, s, allowEqual).value;
    var ib := LowerBound(f, s.base);
    if GoesBelow(f, s) {
      StoreHolds(f[ib].kids, s, allowEqual, t);
      assert g[ib].span == f[ib].span;
      assert forall i | 0 <= i < |f| && i != ib :: g[i] == f[i];
    } else {
      SpliceOf(f, ib, PlaceEnd(f, s), Tree(s, f[ib..PlaceEnd(f, s)]));
      SpliceHolds(f, g, ib, PlaceEnd(f, s), s, t);
    }
  }

  lemma SpliceHolds<E(!new)>(f: Forest<E>, g: Forest<E>, ib: nat, ie: nat, s: Span<E>, t: Span<E>)
    requires ib <= ie <= |f| && Splices(f, g, ib, ie, Tree(s, f[ib..ie]))
    ensures Holds(g, t) <==> Holds(f, t) || t == s
  {
    if Holds(g, t) && t != s {
      var k :| 0 <= k < |g| && (g[k].span == t || Holds(g[k].kids, t));
      if k == ib {
        var m :| 0 <= m < |f[ib..ie]| && (f[ib..ie][m].span == t || Holds(f[ib..ie][m].kids, t));
        assert f[ib + m] == f[ib..ie][m];
      } else {
        assert g[k] == f[if k < ib then k else k - ib - 1 + ie];
      }
    }
    if Holds(f, t) {
      StillHeld(f, g, ib, ie, s, t);
    }
  }

  lemma StillHeld<E(!new)>(f: Forest<E>, g: Forest<E>, ib: nat, ie: nat, s: Span<E>, t: Span<E>)
    requires ib <= ie <= |f| && Splices(f, g, ib, ie, Tree(s, f[ib..ie])) && Holds(f, t)
    ensures Holds(g, t)
  {
    var k :| 0 <= k < |f| && (f[k].span == t || Holds(f[k].kids, t));
    if ib <= k < ie {
      assert f[ib..ie][k - ib] == f[k];
      assert Holds(f[ib..ie], t);
      assert Holds(g[ib].kids, t);
    } else {
      assert g[if k < ib then k else k + ib + 1 - ie] == f[k];
    }
  }

  // ------------------------------------------------------------- retrieving

  /** Puts a range just inside the first range of the chain that contains it. */
  function Nest<E>(chain: seq<Span<E>>, s: Span<E>): seq<Span<E>> {
    if chain == [] || chain[0].Contains(s) then [s] + chain
    else [chain[0]] + Nest(chain[1..], s)
  }

  lemma {:induction false} NestUnder<E>(chain: seq<Span<E>>, s: Span<E>, outer: Span<E>)
    requires outer.Contains(s)
    ensures Nest(chain + [outer], s) == Nest(chain, s) + [outer]
  {
    if chain == [] {
    } else if chain[0].Contains(s) {
      assert [s] + (chain + [outer]) == ([s] + chain) + [outer];
    } else {
      NestUnder(chain[1..], s, outer);
      assert (chain + [outer])[1..] == chain[1..] + [outer];
      assert [chain[0]] + (Nest(chain[1..], s) + [outer]) == ([chain[0]] + Nest(chain[1..], s)) + [outer];
    }
  }

  lemma {:induction false} NestOutside<E>(chain: seq<Span<E>>, s: Span<E>)
    requires forall t | t in chain :: !t.Contains(s)
    ensures Nest(chain, s) == chain + [s]
  {
    if chain != [] {
      NestOutside(chain[1..], s);
      assert [chain[0]] + (chain[1..] + [s]) == chain + [s];
    }
  }

  lemma {:induction false} RetrieveInside<E(!new)>(f: Forest<E>, lo: int, hi: int, address: int)
    requires WellFormed(f, lo, hi)
    ensures forall t | t in Retrieve(f, address) :: lo <= t.base <= t.high <= hi && t.Covers(address) && Holds(f, t)
    decreases f
  {
    var i := LowerBound(f, address);
    if i < |f| && f[i].span.base <= address {
      RetrieveInside(f[i].kids, f[i].span.base, f[i].span.high, address);
    }
  }

  /** The sibling covering an address is the one LowerBound finds. */
  lemma RetrieveAt<E>(f: Forest<E>, lo: int, hi: int, address: int, i: nat)
    requires Siblings(f, lo, hi) && i < |f| && f[i].span.Covers(address)
    ensures Retrieve(f, address) == Retrieve(f[i].kids, address) + [f[i].span]
  {
    var r := LowerBound(f, address);
    InOrder(f, lo, hi, r, i);
    assert r == i;
  }

  lemma RetrieveMiss<E>(f: Forest<E>, lo: int, hi: int, address: int)
    requires Siblings(f, lo, hi) && forall i | 0 <= i < |f| :: !f[i].span.Covers(address)
    ensures Retrieve(f, address) == []
  {
  }

  /** Storing a range puts it into the answer for every address it covers, just
      inside the innermost range that contains it, and changes no other answer. */
  lemma {:induction false} StoreRetrieve<E(!new)>(f: Forest<E>, lo: int, hi: int, s: Span<E>, allowEqual: bool,
                                                  address: int)
    requires WellFormed(f, lo, hi) && lo <= s.base <= s.high <= hi
    requires Store(f, s, allowEqual).Some?
    ensures Retrieve(Store(f, s, allowEqual).value, address) ==
            if s.Covers(address) then Nest(Retrieve(f, address), s) else Retrieve(f, address)
    decreases f
  {
    if GoesBelow(f, s) {
      var ib := LowerBound(f, s.base);
      var g := Store(f, s, allowEqual).value;
      StoreWellFormed(f, lo, hi, s, allowEqual);
      assert g[ib].span == f[ib].span && forall i | 0 <= i < |f| && i != ib :: g[i] == f[i];
      if f[ib].span.Covers(address) {
        RetrieveAt(f, lo, hi, address, ib);
        RetrieveAt(g, lo, hi, address, ib);
        StoreRetrieve(f[ib].kids, f[ib].span.base, f[ib].span.high, s, allowEqual, address);
        NestUnder(Retrieve(f[ib].kids, address), s, f[ib].span);
      } else if i :| 0 <= i < |f| && f[i].span.Covers(address) {
        RetrieveAt(f, lo, hi, address, i);
        RetrieveAt(g, lo, hi, address, i);
      } else {
        RetrieveMiss(f, lo, hi, address);
        RetrieveMiss(g, lo, hi, address);
      }
    } else {
      PlaceRetrieve(f, lo, hi, s, address);
    }
  }

  lemma RetrieveSlice<E>(f: Forest<E>, lo: int, hi: int, ib: nat, ie: nat, address: int)
    requires Siblings(f, lo, hi) && ib <= ie <= |f|
    requires forall i | 0 <= i < |f| && !(ib <= i < ie) :: !f[i].span.Covers(address)
    ensures Retrieve(f[ib..ie], address) == Retrieve(f, address)
  {
    var mid := f[ib..ie];
    var k := LowerBound(mid, address);
    if k < |mid| && mid[k].span.Covers(address) {
      RetrieveAt(f, lo, hi, address, ib + k);
    } else {
      forall i | 0 <= i < |f| ensures !f[i].span.Covers(address) {
        if ib <= i < ie {
          assert mid[i - ib] == f[i];
          if k < |mid| {
            InOrder(f, lo, hi, ib + k, i);
          }
        }
      }
      RetrieveMiss(f, lo, hi, address);
    }
  }

  lemma SpliceCovered<E>(f: Forest<E>, g: Forest<E>, lo: int, hi: int, ib: nat, ie: nat, s: Span<E>, address: int)
    requires ib <= ie <= |f| && Splices(f, g, ib, ie, Tree(s, f[ib..ie])) && Siblings(f, lo, hi) && Siblings(g, lo, hi)
    requires s.Covers(address)
    requires forall i | 0 <= i < |f| && !(ib <= i < ie) :: f[i].span.Disjoint(s)
    ensures Retrieve(g, address) == Retrieve(f, address) + [s]
  {
    RetrieveAt(g, lo, hi, address, ib);
    RetrieveSlice(f, lo, hi, ib, ie, address);
  }

  /** No range that covers an address of `s` contains it when no sibling does. */
  lemma NoneContains<E(!new)>(f: Forest<E>, lo: int, hi: int, s: Span<E>, address: int)
    requires WellFormed(f, lo, hi)
    requires forall i | 0 <= i < |f| :: !f[i].span.Contains(s)
    ensures forall t | t in Retrieve(f, address) :: !t.Contains(s)
  {
    var i := LowerBound(f, address);
    if i < |f| && f[i].span.base <= address {
      RetrieveInside(f[i].kids, f[i].span.base, f[i].span.high, address);
    }
  }

  lemma SpliceMiss<E>(f: Forest<E>, g: Forest<E>, lo: int, hi: int, ib: nat, ie: nat, s: Span<E>, address: int, i: nat)
    requires ib <= ie <= |f| && Splices(f, g, ib, ie, Tree(s, f[ib..ie])) && Siblings(g, lo, hi)
    requires i < |f| && !(ib <= i < ie)
    requires var k := LowerBound(g, address); k < |g| ==> address < g[k].span.base
    ensures !f[i].span.Covers(address)
  {
    var k := LowerBound(g, address);
    var j := if i < ib then i else i + ib + 1 - ie;
    assert g[j] == f[i];
    if k < j {
      InOrder(g, lo, hi, k, j);
    }
  }

  lemma SpliceAllMiss<E>(f: Forest<E>, g: Forest<E>, lo: int, hi: int, ib: nat, ie: nat, s: Span<E>, address: int)
    requires ib <= ie <= |f| && Splices(f, g, ib, ie, Tree(s, f[ib..ie])) && Siblings(f, lo, hi) && Siblings(g, lo, hi)
    requires !s.Covers(address)
    requires forall i | ib <= i < ie :: s.Contains(f[i].span)
    requires var k := LowerBound(g, address); k < |g| ==> address < g[k].span.base
    ensures Retrieve(f, address) == []
  {
    forall i | 0 <= i < |f| ensures !f[i].span.Covers(address) {
      if !(ib <= i < ie) {
        SpliceMiss(f, g, lo, hi, ib, ie, s, address, i);
      }
    }
    RetrieveMiss(f, lo, hi, address);
  }

  lemma SameTreeSameAnswer<E>(f: Forest<E>, g: Forest<E>, lo: int, hi: int, address: int, i: nat, k: nat)
    requires Siblings(f, lo, hi) && Siblings(g, lo, hi)
    requires i < |f| && k < |g| && f[i] == g[k] && f[i].span.Covers(address)
    ensures Retrieve(f, address) == Retrieve(g, address)
  {
    RetrieveAt(f, lo, hi, address, i);
    RetrieveAt(g, lo, hi, address, k);
  }

  lemma SpliceSource<E>(f: Forest<E>, g: Forest<E>, ib: nat, ie: nat, s: Span<E>, k: nat, address: int) returns (i: nat)
    requires ib <= ie <= |f| && Splices(f, g, ib, ie, Tree(s, f[ib..ie]))
    requires k < |g| && g[k].span.Covers(address) && !s.Covers(address)
    ensures i < |f| && f[i] == g[k]
  {
    i := if k < ib then k else k - ib - 1 + ie;
  }

  lemma SpliceUncovered<E>(f: Forest<E>, g: Forest<E>, lo: int, hi: int, ib: nat, ie: nat, s: Span<E>, address: int)
    requires ib <= ie <= |f| && Splices(f, g, ib, ie, Tree(s, f[ib..ie])) && Siblings(f, lo, hi) && Siblings(g, lo, hi)
    requires !s.Covers(address)
    requires forall i | ib <= i < ie :: s.Contains(f[i].span)
    ensures Retrieve(g, address) == Retrieve(f, address)
  {
    var k := LowerBound(g, address);
    if k < |g| && g[k].span.base <= address {
      var i := SpliceSource(f, g, ib, ie, s, k, address);
      SameTreeSameAnswer(f, g, lo, hi, address, i, k);
    } else {
      SpliceAllMiss(f, g, lo, hi, ib, ie, s, address);
    }
  }

  lemma PlaceRetrieve<E(!new)>(f: Forest<E>, lo: int, hi: int, s: Span<E>, address: int)
    requires WellFormed(f, lo, hi) && lo <= s.base <= s.high <= hi
    requires !GoesBelow(f, s) && Place(f, s).Some?
    ensures Retrieve(Place(f, s).value, address) ==
            if s.Covers(address) then Nest(Retrieve(f, address), s) else Retrieve(f, address)
  {
    var g, ib, ie := Place(f, s).value, LowerBound(f, s.base), PlaceEnd(f, s);
    PlaceWellFormed(f, lo, hi, s);
    SpliceOf(f, ib, ie, Tree(s, f[ib..ie]));
    PlaceBounds(f, lo, hi, s);
    if s.Covers(address) {
      SpliceCovered(f, g, lo, hi, ib, ie, s, address);
      PlaceNoneContains(f, lo, hi, s, address);
    } else {
      SpliceUncovered(f, g, lo, hi, ib, ie, s, address);
    }
  }

  lemma PlaceNoneContains<E(!new)>(f: Forest<E>, lo: int, hi: int, s: Span<E>, address: int)
    requires WellFormed(f, lo, hi) && s.base <= s.high && !GoesBelow(f, s) && !PartlyContains(f, s)
    ensures Nest(Retrieve(f, address), s) == Retrieve(f, address) + [s]
  {
    PlaceBounds(f, lo, hi, s);
    NoneContains(f, lo, hi, s, address);
    NestOutside(Retrieve(f, address), s);
  }
}
