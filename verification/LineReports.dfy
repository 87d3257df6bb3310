/** In what order functions are reported, and when one is reported again. */
module LineReports {
  import opened Addresses
  import opened LineCoverage

  /** A byte of one of the owner's ranges that no line covers. */
  ghost predicate BareOf<F>(owners: seq<F>, rs: seq<Extent>, ls: seq<Extent>, f: F, b: int)
    requires |owners| == |rs|
  {
    exists i: nat :: Bare(rs, ls, i, b) && owners[i] == f
  }

  /** The list with the report added, unless it is the one made last. */
  function Cited<T(==)>(reports: seq<T>, x: T): seq<T> {
    if reports != [] && reports[|reports| - 1] == x then reports else reports + [x]
  }

  ghost predicate NoneTwiceRunning<F>(reports: seq<F>) {
    forall k | 0 < k < |reports| :: reports[k] != reports[k - 1]
  }

  /** The last of the places at or before the byte. */
  predicate LastAt(places: seq<int>, k: int, b: int) {
    0 <= k < |places| && places[k] <= b && (k + 1 < |places| ==> b < places[k + 1])
  }

  ghost predicate TurnOf<F>(reports: seq<F>, places: seq<int>, f: F, b: int)
    requires |places| == |reports|
  {
    exists k :: LastAt(places, k, b) && reports[k] == f
  }

  predicate PlacesRise(places: seq<int>) {
    forall j: nat, k: nat | j < k < |places| :: PlaceBefore(places, j, k)
  }

  predicate PlaceBefore(places: seq<int>, j: nat, k: nat)
    requires j < |places| && k < |places|
  {
    places[j] < places[k]
  }

  lemma PlaceNotAfter(places: seq<int>, j: nat, k: nat)
    requires PlacesRise(places) && j <= k < |places|
    ensures places[j] <= places[k]
  {
    assert j < k ==> PlaceBefore(places, j, k);
  }

  /** The report was made where its function has a bare byte. */
  ghost predicate MadeAt<F>(reports: seq<F>, places: seq<int>, owners: seq<F>, rs: seq<Extent>, ls: seq<Extent>,
                            current: int, k: nat)
    requires |owners| == |rs| && |places| == |reports| && k < |places|
  {
    0 <= places[k] < current && BareOf(owners, rs, ls, reports[k], places[k])
  }

  ghost predicate InTurnAt<F>(reports: seq<F>, places: seq<int>, owners: seq<F>, rs: seq<Extent>, ls: seq<Extent>,
                              b: int, i: nat)
    requires |owners| == |rs| && |places| == |reports|
  {
    Bare(rs, ls, i, b) ==> TurnOf(reports, places, owners[i], b)
  }

  /** The reports were made at these places, at bare bytes of the functions reported; and
      a bare byte is one of the function reported last. */
  ghost predicate Traced<F>(reports: seq<F>, places: seq<int>, owners: seq<F>, rs: seq<Extent>, ls: seq<Extent>,
                            current: int)
    requires |owners| == |rs|
  {
    && |places| == |reports| && PlacesRise(places)
    && (forall k: nat | k < |places| :: MadeAt(reports, places, owners, rs, ls, current, k))
    && forall b, i: nat | 0 <= b < current :: InTurnAt(reports, places, owners, rs, ls, b, i)
  }

  ghost predicate InTurn<F>(reports: seq<F>, owners: seq<F>, rs: seq<Extent>, ls: seq<Extent>, current: int)
    requires |owners| == |rs|
  {
    exists places: seq<int> :: Traced(reports, places, owners, rs, ls, current)
  }

  lemma InTurnAtStart<F>(owners: seq<F>, rs: seq<Extent>, ls: seq<Extent>, current: int)
    requires |owners| == |rs| && Reported([], owners, rs, ls, current)
    ensures InTurn([], owners, rs, ls, current)
  {
    var none: seq<int> := [];
    assert Traced([], none, owners, rs, ls, current);
  }

  lemma MadeBefore<F>(reports: seq<F>, places: seq<int>, owners: seq<F>, rs: seq<Extent>, ls: seq<Extent>,
                      current: int, next: int)
    requires |owners| == |rs| && Traced(reports, places, owners, rs, ls, current) && current <= next
    ensures forall k: nat | k < |places| :: MadeAt(reports, places, owners, rs, ls, next, k)
  {
    forall k: nat | k < |places|
      ensures MadeAt(reports, places, owners, rs, ls, next, k)
    {
      assert MadeAt(reports, places, owners, rs, ls, current, k);
    }
  }

  /** No bare byte in this stretch, or bare bytes of the function reported last. */
  lemma TracedFurther<F>(reports: seq<F>, places: seq<int>, owners: seq<F>, rs: seq<Extent>, ls: seq<Extent>,
                         current: int, next: int)
    requires |owners| == |rs| && current <= next && Traced(reports, places, owners, rs, ls, current)
    requires forall b, i: nat | current <= b < next && Bare(rs, ls, i, b) ::
               reports != [] && owners[i] == reports[|reports| - 1]
    ensures Traced(reports, places, owners, rs, ls, next)
  {
    MadeBefore(reports, places, owners, rs, ls, current, next);
    forall b, i: nat | 0 <= b < next
      ensures InTurnAt(reports, places, owners, rs, ls, b, i)
    {
      if b < current {
        assert InTurnAt(reports, places, owners, rs, ls, b, i);
      } else if Bare(rs, ls, i, b) {
        assert MadeAt(reports, places, owners, rs, ls, current, |places| - 1);
        assert LastAt(places, |places| - 1, b);
      }
    }
  }

  lemma TurnKept<F>(reports: seq<F>, places: seq<int>, f: F, b: int, g: F, at: int)
    requires |places| == |reports| && TurnOf(reports, places, f, b) && b < at
    ensures TurnOf(reports + [g], places + [at], f, b)
  {
    var k :| LastAt(places, k, b) && reports[k] == f;
    assert LastAt(places + [at], k, b) && (reports + [g])[k] == f;
  }

  lemma PlaceAdded<F>(reports: seq<F>, places: seq<int>, owners: seq<F>, rs: seq<Extent>, ls: seq<Extent>,
                      current: int, f: F, next: int)
    requires |owners| == |rs| && 0 <= current < next && Traced(reports, places, owners, rs, ls, current)
    requires BareOf(owners, rs, ls, f, current)
    ensures var reports', places' := reports + [f], places + [current];
            && PlacesRise(places')
            && forall k: nat | k < |places'| :: MadeAt(reports', places', owners, rs, ls, next, k)
  {
    var reports', places' := reports + [f], places + [current];
    forall k: nat | k < |places'|
      ensures MadeAt(reports', places', owners, rs, ls, next, k)
    {
      assert k < |places| ==> MadeAt(reports, places, owners, rs, ls, current, k);
    }
    forall j: nat, k: nat | j < k < |places'|
      ensures PlaceBefore(places', j, k)
    {
      if k < |places| {
        assert PlaceBefore(places, j, k);
      } else {
        assert MadeAt(reports, places, owners, rs, ls, current, j);
      }
    }
  }

  /** A stretch of bare bytes of a function that was not reported last. */
  lemma TracedAnew<F>(reports: seq<F>, places: seq<int>, owners: seq<F>, rs: seq<Extent>, ls: seq<Extent>,
                      current: int, f: F, next: int)
    requires |owners| == |rs| && 0 <= current < next && Traced(reports, places, owners, rs, ls, current)
    requires BareOf(owners, rs, ls, f, current)
    requires forall b, i: nat | current <= b < next && Bare(rs, ls, i, b) :: owners[i] == f
    ensures Traced(reports + [f], places + [current], owners, rs, ls, next)
  {
    var reports', places' := reports + [f], places + [current];
    PlaceAdded(reports, places, owners, rs, ls, current, f, next);
    forall b, i: nat | 0 <= b < next
      ensures InTurnAt(reports', places', owners, rs, ls, b, i)
    {
      if Bare(rs, ls, i, b) {
        if b < current {
          assert InTurnAt(reports, places, owners, rs, ls, b, i);
          TurnKept(reports, places, owners[i], b, f, current);
        } else {
          assert LastAt(places', |places|, b) && reports'[|places|] == f;
        }
      }
    }
  }

  /** One transition keeps the reports in turn. */
  lemma InTurnStep<F>(reports: seq<F>, owners: seq<F>, rs: seq<Extent>, ls: seq<Extent>, ri: nat, li: nat,
                      current: int, target: int, next: int)
    requires |owners| == |rs| && 0 <= current < next <= target
    requires Poised(rs, ls, ri, li, current) && Steady(rs, ri, current, target) && Steady(ls, li, current, target)
    requires InTurn(reports, owners, rs, ls, current)
    ensures InTurn(if Active(rs, ri, current) && !Active(ls, li, current) then Cited(reports, owners[ri]) else reports,
                   owners, rs, ls, next)
  {
    var places :| Traced(reports, places, owners, rs, ls, current);
    forall b, i: nat | current <= b < next && Bare(rs, ls, i, b)
      ensures i == ri && Active(rs, ri, current) && !Active(ls, li, current)
    {
      OnlyActive(rs, ri, current, target, b, i);
      if Active(ls, li, current) {
        ActiveCovers(ls, li, current, target, b);
      }
    }
    if Active(rs, ri, current) && !Active(ls, li, current) {
      forall j: nat | j < |ls|
        ensures !ls[j].Covers(current)
      {
        if ls[j].Covers(current) {
          OnlyActive(ls, li, current, target, current, j);
        }
      }
      assert Bare(rs, ls, ri, current);
      if reports == [] || reports[|reports| - 1] != owners[ri] {
        TracedAnew(reports, places, owners, rs, ls, current, owners[ri], next);
      } else {
        TracedFurther(reports, places, owners, rs, ls, current, next);
      }
    } else {
      TracedFurther(reports, places, owners, rs, ls, current, next);
    }
  }

  lemma InTurnToEnd<F>(reports: seq<F>, owners: seq<F>, rs: seq<Extent>, ls: seq<Extent>, current: int)
    requires |owners| == |rs| && 0 <= current <= MAX_ADDRESS
    requires Standing(rs, ls, |rs|, |ls|, current) && InTurn(reports, owners, rs, ls, current)
    ensures InTurn(reports, owners, rs, ls, MAX_ADDRESS)
  {
    var places :| Traced(reports, places, owners, rs, ls, current);
    TracedFurther(reports, places, owners, rs, ls, current, MAX_ADDRESS);
  }

  // --------------------------------------------------------------- reported again

  ghost predicate ReportedAgain<F>(reports: seq<F>, f: F) {
    exists j, k | 0 <= j < k < |reports| :: reports[j] == f && reports[k] == f
  }

  /** Between two bare bytes of the function is one of another. */
  ghost predicate Alternating<F>(owners: seq<F>, rs: seq<Extent>, ls: seq<Extent>, f: F, g: F, b: int, c: int, d: int)
    requires |owners| == |rs|
  {
    && 0 <= b < c < d < MAX_ADDRESS && g != f
    && BareOf(owners, rs, ls, f, b) && BareOf(owners, rs, ls, g, c) && BareOf(owners, rs, ls, f, d)
  }

  lemma AgainAlternates<F>(reports: seq<F>, owners: seq<F>, rs: seq<Extent>, ls: seq<Extent>, f: F)
    requires |owners| == |rs| && InTurn(reports, owners, rs, ls, MAX_ADDRESS) && NoneTwiceRunning(reports)
    requires ReportedAgain(reports, f)
    ensures exists g, b, c, d :: Alternating(owners, rs, ls, f, g, b, c, d)
  {
    var places :| Traced(reports, places, owners, rs, ls, MAX_ADDRESS);
    var j, k :| 0 <= j < k < |reports| && reports[j] == f && reports[k] == f;
    assert reports[j + 1] != reports[j + 1 - 1];
    assert MadeAt(reports, places, owners, rs, ls, MAX_ADDRESS, j);
    assert MadeAt(reports, places, owners, rs, ls, MAX_ADDRESS, j + 1);
    assert MadeAt(reports, places, owners, rs, ls, MAX_ADDRESS, k);
    assert PlaceBefore(places, j, j + 1) && PlaceBefore(places, j + 1, k);
    assert Alternating(owners, rs, ls, f, reports[j + 1], places[j], places[j + 1], places[k]);
  }

  lemma LaterTurn(places: seq<int>, j: int, b: int, k: int, c: int)
    requires PlacesRise(places) && LastAt(places, j, b) && LastAt(places, k, c) && b < c
    ensures j <= k
  {
    if k < j {
      PlaceNotAfter(places, k + 1, j);
    }
  }

  lemma TurnAt<F>(reports: seq<F>, places: seq<int>, owners: seq<F>, rs: seq<Extent>, ls: seq<Extent>,
                  current: int, f: F, b: int)
    requires |owners| == |rs| && Traced(reports, places, owners, rs, ls, current)
    requires 0 <= b < current && BareOf(owners, rs, ls, f, b)
    ensures TurnOf(reports, places, f, b)
  {
    var i: nat :| Bare(rs, ls, i, b) && owners[i] == f;
    assert InTurnAt(reports, places, owners, rs, ls, b, i);
  }

  lemma TurnsAgain<F>(reports: seq<F>, places: seq<int>, f: F, g: F, b: int, c: int, d: int)
    requires |places| == |reports| && PlacesRise(places) && b < c < d && g != f
    requires TurnOf(reports, places, f, b) && TurnOf(reports, places, g, c) && TurnOf(reports, places, f, d)
    ensures ReportedAgain(reports, f)
  {
    var j :| LastAt(places, j, b) && reports[j] == f;
    var k :| LastAt(places, k, c) && reports[k] == g;
    var m :| LastAt(places, m, d) && reports[m] == f;
    LaterTurn(places, j, b, k, c);
    LaterTurn(places, k, c, m, d);
  }

  lemma AlternatesAgain<F>(reports: seq<F>, owners: seq<F>, rs: seq<Extent>, ls: seq<Extent>,
                           f: F, g: F, b: int, c: int, d: int)
    requires |owners| == |rs| && InTurn(reports, owners, rs, ls, MAX_ADDRESS)
    requires Alternating(owners, rs, ls, f, g, b, c, d)
    ensures ReportedAgain(reports, f)
  {
    var places :| Traced(reports, places, owners, rs, ls, MAX_ADDRESS);
    TurnAt(reports, places, owners, rs, ls, MAX_ADDRESS, f, b);
    TurnAt(reports, places, owners, rs, ls, MAX_ADDRESS, g, c);
    TurnAt(reports, places, owners, rs, ls, MAX_ADDRESS, f, d);
    TurnsAgain(reports, places, f, g, b, c, d);
  }
}
