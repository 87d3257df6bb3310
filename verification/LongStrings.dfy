/** Long values over a bounded map: what the segments of a key stand for. */
module LongStrings {
  import opened NonAllocatingMap

  const MAX_SEGMENTS: nat := 10
  /** What fits one slot. */
  const SEGMENT: nat := VALUE_SIZE - 1

  /** Where the `i`-th segment of a value begins. */
  function Cut(i: nat): nat {
    255 * i
  }

  function Suffix(i: nat): string
    requires i < MAX_SEGMENTS
  {
    ["__1", "__2", "__3", "__4", "__5", "__6", "__7", "__8", "__9", "__10"][i]
  }

  function SegmentKey(key: string, i: nat): string
    requires i < MAX_SEGMENTS
  {
    key + Suffix(i)
  }

  /** The segments' values one after the other, as far as there are segments. */
  function Joined(m: map<string, string>, key: string, i: nat): string
    decreases MAX_SEGMENTS - i
  {
    if i < MAX_SEGMENTS && SegmentKey(key, i) in m then m[SegmentKey(key, i)] + Joined(m, key, i + 1) else ""
  }

  function Lookup(m: map<string, string>, key: string): string {
    if key in m then m[key] else Joined(m, key, 0)
  }

  predicate Present(m: map<string, string>, key: string) {
    key in m || SegmentKey(key, 0) in m
  }

  // ---------------------------------------------------------- clients' keys

  predicate HasRoom(key: string) {
    key != "" && |key| + 4 < KEY_SIZE
  }

  /** Keys with room for a suffix, none of them another one with a suffix. */
  ghost predicate Clients(keys: set<string>) {
    && (forall k | k in keys :: HasRoom(k))
    && (forall k, l, i: nat | k in keys && l in keys && i < MAX_SEGMENTS :: k != SegmentKey(l, i))
  }

  /** Segment keys differ in key or number. */
  lemma SegmentKeysApart(k: string, i: nat, l: string, j: nat)
    requires i < MAX_SEGMENTS && j < MAX_SEGMENTS && SegmentKey(k, i) == SegmentKey(l, j)
    ensures k == l && i == j
  {
    var s := SegmentKey(k, i);
    assert s[|s| - 1] == Suffix(i)[|Suffix(i)| - 1] == Suffix(j)[|Suffix(j)| - 1];
    assert i == j;
    assert s[..|s| - |Suffix(i)|] == k && s[..|s| - |Suffix(j)|] == l;
  }

  // ------------------------------------------------- maps that runs lead to

  /** One key's segments: from the first on without gaps, only without an entry of its
      own, and all but the last of them full. */
  ghost predicate WellCut(m: map<string, string>, key: string) {
    && (key in m ==> |m[key]| <= SEGMENT)
    && (key in m ==> forall i: nat | i < MAX_SEGMENTS :: SegmentKey(key, i) !in m)
    && (forall i: nat | i < MAX_SEGMENTS && SegmentKey(key, i) in m :: 0 < |m[SegmentKey(key, i)]| <= SEGMENT)
    && (forall i: nat | 0 < i < MAX_SEGMENTS && SegmentKey(key, i) in m ::
          SegmentKey(key, i - 1) in m && |m[SegmentKey(key, i - 1)]| == SEGMENT)
  }

  ghost predicate Named(keys: set<string>, name: string) {
    name in keys || exists k, i: nat :: k in keys && i < MAX_SEGMENTS && name == SegmentKey(k, i)
  }

  ghost predicate WellKept(m: map<string, string>, keys: set<string>) {
    && (forall name | name in m :: Named(keys, name))
    && (forall k | k in keys :: WellCut(m, k))
  }

  // ------------------------------------------------------- what they stand for

  /** The map the clients see. */
  ghost function View(m: map<string, string>, keys: set<string>): map<string, string> {
    map k | k in keys && Present(m, k) :: Lookup(m, k)
  }

  /** How many slots a stored value takes. */
  function SlotsFor(value: string): nat {
    if |value| <= SEGMENT then 1 else (|value| + 254) / 255
  }

  ghost function Slots(values: map<string, string>): set<(string, nat)> {
    set k, i: nat | k in values && i < SlotsFor(values[k]) :: (k, i)
  }

  /** The slots left beside these values. */
  ghost function Free(values: map<string, string>): int {
    NUM_ENTRIES - |Slots(values)|
  }

  function Min(a: int, b: int): int {
    if a <= b then a else b
  }

  /** Setting a value: whole if it is short and a slot is free; a long one cut to what
      the free slots, or ten of them, hold; not at all without a slot. */
  ghost function Set(values: map<string, string>, key: string, value: string): map<string, string> {
    Put(values - {key}, key, value)
  }

  ghost function Put(rest: map<string, string>, key: string, value: string): map<string, string> {
    if Free(rest) <= 0 then rest
    else if |value| <= SEGMENT then rest[key := value]
    else rest[key := value[..Min(|value|, Cut(Min(MAX_SEGMENTS, Free(rest))))]]
  }

  // --------------------------------------------------------------- by the numbers

  /** A value of up to 255 characters takes one slot, a longer one as many as it needs. */
  lemma SlotsByTheNumbers(value: string, n: nat)
    ensures SlotsFor(value) == n <==> if |value| <= 255 then n == 1 else 255 * (n - 1) < |value| <= 255 * n
  {
  }

  /** Ten free slots hold 2550 characters; fewer 255 each; and longer values are cut there. */
  lemma KeptByTheNumbers(values: map<string, string>, key: string, value: string)
    requires value != ""
    ensures var free, now := 64 - |Slots(values - {key})|, Set(values, key, value);
            && now - {key} == values - {key}
            && (free <= 0 ==> key !in now)
            && (free > 0 ==> key in now)
            && (free > 0 && |value| <= 255 ==> now[key] == value)
            && (free >= 10 && |value| <= 2550 ==> now[key] == value)
            && (free >= 10 && |value| > 2550 ==> now[key] == value[..2550])
            && (0 < free < 10 && |value| > 255 ==>
                  now[key] == if |value| <= 255 * free then value else value[..255 * free])
  {
    var rest := values - {key};
    assert key !in rest && Free(rest) == 64 - |Slots(rest)|;
  }

  lemma SegmentNamesByTheLetter(key: string)
    ensures SegmentKey(key, 0) == key + "__1" && SegmentKey(key, 1) == key + "__2" && SegmentKey(key, 8) == key + "__9"
    ensures SegmentKey(key, 9) == key + "__10"
    ensures HasRoom(key) <==> key != "" && |key| <= 251
  {
  }

  // ----------------------------------------------------------------- counting

  /** Sets with a bijection between them are equally large. */
  lemma {:induction false} EquallyMany<T, U>(a: set<T>, b: set<U>, f: T -> U)
    requires forall x | x in a :: f(x) in b
    requires forall x, y | x in a && y in a && f(x) == f(y) :: x == y
    requires forall u | u in b :: exists x :: x in a && f(x) == u
    ensures |a| == |b|
    decreases |a|
  {
    if a == {} {
      assert b == {};
    } else {
      var x :| x in a;
      EquallyMany(a - {x}, b - {f(x)}, f);
    }
  }

  /** From the `i`-th segment on: how many there are, and how long they are together. */
  function SegmentsFrom(m: map<string, string>, key: string, i: nat): nat
    decreases MAX_SEGMENTS - i
  {
    if i < MAX_SEGMENTS && SegmentKey(key, i) in m then 1 + SegmentsFrom(m, key, i + 1) else 0
  }

  lemma {:induction false} SegmentsThere(m: map<string, string>, key: string, i: nat, j: nat)
    requires WellCut(m, key) && i <= j < MAX_SEGMENTS
    ensures SegmentKey(key, j) in m <==> j < i + SegmentsFrom(m, key, i)
    decreases MAX_SEGMENTS - i
  {
    if SegmentKey(key, i) in m {
      if i < j {
        SegmentsThere(m, key, i + 1, j);
      }
    } else {
      NoneAfter(m, key, i, j);
    }
  }

  lemma {:induction false} NoneAfter(m: map<string, string>, key: string, i: nat, j: nat)
    requires WellCut(m, key) && i <= j < MAX_SEGMENTS && SegmentKey(key, i) !in m
    ensures SegmentKey(key, j) !in m
    decreases j
  {
    if i < j {
      NoneAfter(m, key, i, j - 1);
    }
  }

  /** A text that takes this many slots, the last of them not empty. */
  predicate Fills(length: nat, n: nat) {
    n >= 1 && Cut(n - 1) < length <= Cut(n)
  }

  lemma FillsMore(length: nat, n: nat)
    requires Fills(length, n)
    ensures Fills(SEGMENT + length, n + 1)
  {
  }

  lemma SegmentBeforeIsFull(m: map<string, string>, key: string, i: nat)
    requires WellCut(m, key) && i + 1 < MAX_SEGMENTS && SegmentKey(key, i + 1) in m
    ensures SegmentKey(key, i) in m && |m[SegmentKey(key, i)]| == SEGMENT
  {
    assert SegmentKey(key, (i + 1) - 1) in m;
  }

  lemma {:induction false} JoinedLength(m: map<string, string>, key: string, i: nat)
    requires WellCut(m, key) && i < MAX_SEGMENTS && SegmentKey(key, i) in m
    ensures Fills(|Joined(m, key, i)|, SegmentsFrom(m, key, i))
    decreases MAX_SEGMENTS - i
  {
    if i + 1 < MAX_SEGMENTS && SegmentKey(key, i + 1) in m {
      JoinedLength(m, key, i + 1);
      SegmentBeforeIsFull(m, key, i);
      FillsMore(|Joined(m, key, i + 1)|, SegmentsFrom(m, key, i + 1));
    } else {
      assert Joined(m, key, i + 1) == "" && SegmentsFrom(m, key, i + 1) == 0;
    }
  }

  lemma SlotsForLength(value: string, n: nat)
    requires Fills(|value|, n)
    ensures SlotsFor(value) == n
  {
  }

  /** A client's value takes as many slots as its key has entries. */
  lemma LookupSlots(m: map<string, string>, key: string)
    requires WellCut(m, key) && Present(m, key)
    ensures SlotsFor(Lookup(m, key)) == if key in m then 1 else SegmentsFrom(m, key, 0)
  {
    if key !in m {
      JoinedLength(m, key, 0);
      SlotsForLength(Joined(m, key, 0), SegmentsFrom(m, key, 0));
    }
  }

  // -------------------------------------------------------------- accounting

  /** The entry a slot of a client's value is in. */
  function EntryOf(m: map<string, string>, slot: (string, nat)): string {
    if slot.0 in m || slot.1 >= MAX_SEGMENTS then slot.0 else SegmentKey(slot.0, slot.1)
  }

  lemma SegmentsAtMost(m: map<string, string>, key: string, i: nat)
    requires i <= MAX_SEGMENTS
    ensures i + SegmentsFrom(m, key, i) <= MAX_SEGMENTS
    decreases MAX_SEGMENTS - i
  {
    if i < MAX_SEGMENTS && SegmentKey(key, i) in m {
      SegmentsAtMost(m, key, i + 1);
    }
  }

  lemma SlotIsEntry(m: map<string, string>, keys: set<string>, slot: (string, nat))
    requires WellKept(m, keys) && slot in Slots(View(m, keys))
    ensures slot.0 in keys && EntryOf(m, slot) in m
    ensures if slot.0 in m then slot.1 == 0 else slot.1 < MAX_SEGMENTS
  {
    LookupSlots(m, slot.0);
    if slot.0 !in m {
      SegmentsAtMost(m, slot.0, 0);
      SegmentsThere(m, slot.0, 0, slot.1);
    }
  }

  lemma SlotsApart(m: map<string, string>, keys: set<string>, a: (string, nat), b: (string, nat))
    requires WellKept(m, keys) && Clients(keys) && a in Slots(View(m, keys)) && b in Slots(View(m, keys))
    requires EntryOf(m, a) == EntryOf(m, b)
    ensures a == b
  {
    SlotIsEntry(m, keys, a);
    SlotIsEntry(m, keys, b);
    if a.0 !in m && b.0 !in m {
      SegmentKeysApart(a.0, a.1, b.0, b.1);
    }
  }

  lemma EntryHasSlot(m: map<string, string>, keys: set<string>, name: string) returns (slot: (string, nat))
    requires WellKept(m, keys) && Clients(keys) && name in m
    ensures slot in Slots(View(m, keys)) && EntryOf(m, slot) == name
  {
    assert Named(keys, name);
    if name in keys {
      slot := (name, 0);
      LookupSlots(m, name);
    } else {
      var k, i: nat :| k in keys && i < MAX_SEGMENTS && name == SegmentKey(k, i);
      slot := (k, i);
      assert WellCut(m, k);
      SegmentsThere(m, k, 0, i);
      SegmentsThere(m, k, 0, 0);
      LookupSlots(m, k);
    }
  }

  /** The clients' values take exactly the slots that are taken. */
  lemma Accounted(m: map<string, string>, keys: set<string>)
    requires WellKept(m, keys) && Clients(keys)
    ensures |Slots(View(m, keys))| == |m|
  {
    var a, b, f := Slots(View(m, keys)), m.Keys, (slot: (string, nat)) => EntryOf(m, slot);
    forall x | x in a
      ensures f(x) in b
    {
      SlotIsEntry(m, keys, x);
    }
    forall x, y | x in a && y in a && f(x) == f(y)
      ensures x == y
    {
      SlotsApart(m, keys, x, y);
    }
    forall u | u in b
      ensures exists x :: x in a && f(x) == u
    {
      var x := EntryHasSlot(m, keys, u);
      assert f(x) == u;
    }
    EquallyMany(a, b, f);
  }

  // --------------------------------------------------------- one key's names

  /** The key itself and all its segment keys. */
  ghost function OwnNames(key: string): set<string> {
    {key} + SegmentNames(key, MAX_SEGMENTS)
  }

  ghost function SegmentNames(key: string, n: nat): set<string>
    requires n <= MAX_SEGMENTS
  {
    set i: nat | i < n :: SegmentKey(key, i)
  }

  ghost predicate Agree(m: map<string, string>, n: map<string, string>, key: string) {
    forall name | name in OwnNames(key) :: (name in m <==> name in n) && (name in m ==> m[name] == n[name])
  }

  lemma OwnName(key: string, i: nat)
    requires i < MAX_SEGMENTS
    ensures SegmentKey(key, i) in OwnNames(key)
  {
  }

  lemma {:induction false} AgreeJoined(m: map<string, string>, n: map<string, string>, key: string, i: nat)
    requires Agree(m, n, key)
    ensures Joined(m, key, i) == Joined(n, key, i)
    decreases MAX_SEGMENTS - i
  {
    if i < MAX_SEGMENTS {
      OwnName(key, i);
      AgreeJoined(m, n, key, i + 1);
    }
  }

  /** What a key stands for depends on its own names only. */
  lemma AgreeLookup(m: map<string, string>, n: map<string, string>, key: string)
    requires Agree(m, n, key)
    ensures Lookup(m, key) == Lookup(n, key) && Present(m, key) == Present(n, key)
  {
    AgreeJoined(m, n, key, 0);
    OwnName(key, 0);
  }

  lemma AgreeCut(m: map<string, string>, n: map<string, string>, key: string)
    requires Agree(m, n, key) && WellCut(m, key)
    ensures WellCut(n, key)
  {
    forall i: nat | i < MAX_SEGMENTS
      ensures SegmentKey(key, i) in OwnNames(key)
    {
      OwnName(key, i);
    }
  }

  /** Different clients have different names. */
  lemma OwnNamesApart(keys: set<string>, k: string, l: string)
    requires Clients(keys) && k in keys && l in keys && k != l
    ensures OwnNames(k) !! OwnNames(l)
  {
    forall name | name in OwnNames(k) && name in OwnNames(l)
      ensures false
    {
      if name != k && name != l {
        var i: nat :| i < MAX_SEGMENTS && name == SegmentKey(k, i);
        var j: nat :| j < MAX_SEGMENTS && name == SegmentKey(l, j);
        SegmentKeysApart(k, i, l, j);
      }
    }
  }

  /** A map that differs from `m` in the key's own names only. */
  ghost predicate Elsewhere(m: map<string, string>, n: map<string, string>, key: string) {
    m - OwnNames(key) == n - OwnNames(key)
  }

  lemma ElsewhereAgree(m: map<string, string>, n: map<string, string>, keys: set<string>, key: string, other: string)
    requires Elsewhere(m, n, key) && Clients(keys) && key in keys && other in keys && other != key
    ensures Agree(m, n, other)
  {
    OwnNamesApart(keys, other, key);
    forall name | name in OwnNames(other)
      ensures (name in m <==> name in n) && (name in m ==> m[name] == n[name])
    {
      assert name in m <==> name in m - OwnNames(key);
      assert name in n <==> name in n - OwnNames(key);
    }
  }

  ghost predicate SameFor(m: map<string, string>, n: map<string, string>, key: string) {
    Lookup(m, key) == Lookup(n, key) && Present(m, key) == Present(n, key)
  }

  lemma SameViews(m: map<string, string>, n: map<string, string>, keys: set<string>, key: string)
    requires forall k | k in keys && k != key :: SameFor(m, n, k)
    ensures View(n, keys) - {key} == View(m, keys) - {key}
  {
    forall k | k in keys && k != key
      ensures Present(m, k) == Present(n, k) && Lookup(m, k) == Lookup(n, k)
    {
      assert SameFor(m, n, k);
    }
  }

  lemma OtherKept(m: map<string, string>, n: map<string, string>, keys: set<string>, key: string, k: string)
    requires Elsewhere(m, n, key) && Clients(keys) && key in keys && k in keys && k != key && WellCut(m, k)
    ensures WellCut(n, k) && SameFor(m, n, k)
  {
    ElsewhereAgree(m, n, keys, key, k);
    AgreeCut(m, n, k);
    AgreeLookup(m, n, k);
  }

  lemma NamesKept(m: map<string, string>, n: map<string, string>, keys: set<string>, key: string)
    requires Elsewhere(m, n, key) && key in keys && forall name | name in m :: Named(keys, name)
    ensures forall name | name in n :: Named(keys, name)
  {
    forall name | name in n
      ensures Named(keys, name)
    {
      if name !in OwnNames(key) {
        assert name in n - OwnNames(key);
        assert Named(keys, name);
      }
    }
  }

  /** Changing one client's names leaves all the others as they were. */
  lemma OthersKept(m: map<string, string>, n: map<string, string>, keys: set<string>, key: string)
    requires Elsewhere(m, n, key) && Clients(keys) && key in keys && WellKept(m, keys) && WellCut(n, key)
    ensures WellKept(n, keys)
    ensures View(n, keys) - {key} == View(m, keys) - {key}
  {
    forall k | k in keys
      ensures WellCut(n, k)
      ensures k != key ==> SameFor(m, n, k)
    {
      if k != key {
        OtherKept(m, n, keys, key, k);
      }
    }
    NamesKept(m, n, keys, key);
    SameViews(m, n, keys, key);
  }

  /** None of the key's names is taken. */
  ghost predicate Absent(m: map<string, string>, key: string) {
    forall name | name in OwnNames(key) :: name !in m
  }

  lemma AbsentCut(m: map<string, string>, key: string)
    requires Absent(m, key)
    ensures WellCut(m, key) && !Present(m, key)
    ensures forall i: nat | i < MAX_SEGMENTS :: SegmentKey(key, i) !in m
  {
    forall i: nat | i < MAX_SEGMENTS
      ensures SegmentKey(key, i) in OwnNames(key)
    {
      OwnName(key, i);
    }
  }

  /** What clients see of a map depends on the keys other than one, and on that one. */
  lemma ViewBut(m: map<string, string>, n: map<string, string>, keys: set<string>, key: string)
    requires key in keys && View(n, keys) - {key} == View(m, keys) - {key}
    ensures !Present(n, key) ==> View(n, keys) == View(m, keys) - {key}
    ensures Present(n, key) ==> View(n, keys) == (View(m, keys) - {key})[key := Lookup(n, key)]
  {
    var v, w := View(n, keys), View(m, keys) - {key};
    if Present(n, key) {
      assert v == (v - {key})[key := Lookup(n, key)];
    } else {
      assert v == v - {key};
    }
  }

  /** Removing all of a client's names removes the client. */
  lemma Removed(m: map<string, string>, keys: set<string>, key: string)
    requires Clients(keys) && key in keys && WellKept(m, keys)
    ensures var n := m - OwnNames(key); Absent(n, key) && WellKept(n, keys) && View(n, keys) == View(m, keys) - {key}
  {
    var n := m - OwnNames(key);
    AbsentCut(n, key);
    OthersKept(m, n, keys, key);
    ViewBut(m, n, keys, key);
  }

  // --------------------------------------------------------- storing a value

  function Piece(value: string, i: nat): string
    requires Cut(i) <= |value|
  {
    value[Cut(i)..Min(|value|, Cut(i + 1))]
  }

  /** `n` segments can be cut from the value without an empty one. */
  predicate Cuttable(value: string, n: nat) {
    n == 0 || Cut(n - 1) < |value|
  }

  function WithSegments(m: map<string, string>, key: string, value: string, n: nat): map<string, string>
    requires n <= MAX_SEGMENTS && Cuttable(value, n)
  {
    if n == 0 then m else WithSegments(m, key, value, n - 1)[SegmentKey(key, n - 1) := Piece(value, n - 1)]
  }

  lemma {:induction false} WithSegmentsHas(m: map<string, string>, key: string, value: string, n: nat, name: string)
    requires n <= MAX_SEGMENTS && Cuttable(value, n)
    ensures name in WithSegments(m, key, value, n) <==> name in m || name in SegmentNames(key, n)
    ensures name !in SegmentNames(key, n) && name in m ==> WithSegments(m, key, value, n)[name] == m[name]
  {
    if n > 0 {
      WithSegmentsHas(m, key, value, n - 1, name);
      assert SegmentNames(key, n) == SegmentNames(key, n - 1) + {SegmentKey(key, n - 1)};
    }
  }

  lemma {:induction false} WithSegmentsAt(m: map<string, string>, key: string, value: string, n: nat, i: nat)
    requires i < n <= MAX_SEGMENTS && Cuttable(value, n)
    ensures SegmentKey(key, i) in WithSegments(m, key, value, n)
    ensures Cut(i) <= |value| && WithSegments(m, key, value, n)[SegmentKey(key, i)] == Piece(value, i)
  {
    if i < n - 1 {
      WithSegmentsAt(m, key, value, n - 1, i);
      if SegmentKey(key, i) == SegmentKey(key, n - 1) {
        SegmentKeysApart(key, i, key, n - 1);
      }
    }
  }

  lemma NotASegment(key: string, n: nat, i: nat)
    requires n <= i < MAX_SEGMENTS
    ensures SegmentKey(key, i) !in SegmentNames(key, n)
  {
    if j: nat :| j < n && SegmentKey(key, i) == SegmentKey(key, j) {
      SegmentKeysApart(key, i, key, j);
    }
  }

  /** Beyond the segments stored there are none. */
  lemma WithSegmentsEnd(m: map<string, string>, key: string, value: string, n: nat, i: nat)
    requires n <= i < MAX_SEGMENTS && Cuttable(value, n) && SegmentKey(key, i) !in m
    ensures SegmentKey(key, i) !in WithSegments(m, key, value, n)
  {
    WithSegmentsHas(m, key, value, n, SegmentKey(key, i));
    NotASegment(key, n, i);
  }

  lemma PieceThenRest(value: string, i: nat, n: nat)
    requires i + 1 < n && Cuttable(value, n)
    ensures Cut(i + 1) <= |value|
    ensures var cut := Min(|value|, Cut(n)); value[Cut(i)..cut] == Piece(value, i) + value[Cut(i + 1)..cut]
  {
  }

  /** Reading the segments gives the value back, as far as it was stored. */
  lemma {:induction false} JoinedPieces(m: map<string, string>, key: string, value: string, n: nat, i: nat)
    requires i <= n <= MAX_SEGMENTS && Cuttable(value, n) && Cut(i) <= |value|
    requires forall j: nat | j < MAX_SEGMENTS :: SegmentKey(key, j) !in m
    ensures Cut(i) <= Min(|value|, Cut(n))
    ensures Joined(WithSegments(m, key, value, n), key, i) == value[Cut(i)..Min(|value|, Cut(n))]
    decreases n - i
  {
    if i < n {
      WithSegmentsAt(m, key, value, n, i);
      if i + 1 < n {
        JoinedPieces(m, key, value, n, i + 1);
        PieceThenRest(value, i, n);
      } else {
        JoinedEnd(m, key, value, n);
      }
    } else {
      JoinedEnd(m, key, value, n);
    }
  }

  lemma JoinedEnd(m: map<string, string>, key: string, value: string, n: nat)
    requires n <= MAX_SEGMENTS && Cuttable(value, n)
    requires forall j: nat | j < MAX_SEGMENTS :: SegmentKey(key, j) !in m
    ensures Joined(WithSegments(m, key, value, n), key, n) == ""
  {
    if n < MAX_SEGMENTS {
      WithSegmentsEnd(m, key, value, n, n);
    }
  }

  lemma {:induction false} WithSegmentsSize(m: map<string, string>, key: string, value: string, n: nat)
    requires n <= MAX_SEGMENTS && Cuttable(value, n) && Absent(m, key)
    ensures |WithSegments(m, key, value, n)| == |m| + n
  {
    if n > 0 {
      WithSegmentsSize(m, key, value, n - 1);
      AbsentCut(m, key);
      WithSegmentsEnd(m, key, value, n - 1, n - 1);
    }
  }

  lemma WithSegmentsCut(m: map<string, string>, key: string, value: string, n: nat)
    requires n <= MAX_SEGMENTS && Cuttable(value, n) && Absent(m, key)
    ensures WellCut(WithSegments(m, key, value, n), key)
  {
    var now := WithSegments(m, key, value, n);
    AbsentCut(m, key);
    forall i: nat | i < MAX_SEGMENTS
      ensures SegmentKey(key, i) in now <==> i < n
      ensures i < n ==> 0 < |now[SegmentKey(key, i)]| <= SEGMENT && (i + 1 < n ==> |now[SegmentKey(key, i)]| == SEGMENT)
    {
      if i < n {
        WithSegmentsAt(m, key, value, n, i);
      } else {
        WithSegmentsEnd(m, key, value, n, i);
      }
    }
    WithSegmentsHas(m, key, value, n, key);
    NotOwnSegment(key, n);
  }

  lemma NotOwnSegment(key: string, n: nat)
    requires n <= MAX_SEGMENTS
    ensures key !in SegmentNames(key, n)
  {
    forall i: nat | i < n
      ensures |SegmentKey(key, i)| > |key|
    {
    }
  }

  lemma WithSegmentsElsewhere(m: map<string, string>, key: string, value: string, n: nat)
    requires n <= MAX_SEGMENTS && Cuttable(value, n)
    ensures Elsewhere(m, WithSegments(m, key, value, n), key)
  {
    forall name | name !in OwnNames(key)
      ensures name in WithSegments(m, key, value, n) <==> name in m
      ensures name in m ==> WithSegments(m, key, value, n)[name] == m[name]
    {
      WithSegmentsHas(m, key, value, n, name);
    }
  }

  /** A client that was not there, and now is. */
  lemma StoredAs(m: map<string, string>, now: map<string, string>, keys: set<string>, key: string, value: string)
    requires Elsewhere(m, now, key) && Clients(keys) && key in keys && WellKept(m, keys) && WellCut(now, key)
    requires !Present(m, key) && Present(now, key) && Lookup(now, key) == value
    ensures WellKept(now, keys) && View(now, keys) == View(m, keys)[key := value]
  {
    OthersKept(m, now, keys, key);
    ViewBut(m, now, keys, key);
    assert View(m, keys) - {key} == View(m, keys);
  }

  /** A short value stored where nothing of the key was. */
  lemma StoredShort(m: map<string, string>, keys: set<string>, key: string, value: string)
    requires Clients(keys) && key in keys && WellKept(m, keys) && Absent(m, key) && |value| <= SEGMENT
    ensures WellKept(m[key := value], keys)
    ensures View(m[key := value], keys) == View(m, keys)[key := value]
  {
    var n := m[key := value];
    AbsentCut(m, key);
    assert WellCut(n, key) by {
      forall i: nat | i < MAX_SEGMENTS
        ensures SegmentKey(key, i) !in n
      {
        assert |SegmentKey(key, i)| > |key|;
      }
    }
    assert Elsewhere(m, n, key);
    StoredAs(m, n, keys, key, value);
  }

  /** Some segments of a long value. */
  lemma StoredLong(m: map<string, string>, keys: set<string>, key: string, value: string, n: nat)
    requires Clients(keys) && key in keys && WellKept(m, keys) && Absent(m, key)
    requires 0 < n <= MAX_SEGMENTS && Cuttable(value, n)
    ensures WellKept(WithSegments(m, key, value, n), keys)
    ensures View(WithSegments(m, key, value, n), keys) == View(m, keys)[key := value[..Min(|value|, Cut(n))]]
  {
    var now := WithSegments(m, key, value, n);
    AbsentCut(m, key);
    WithSegmentsCut(m, key, value, n);
    WithSegmentsElsewhere(m, key, value, n);
    LongLookup(m, key, value, n);
    StoredAs(m, now, keys, key, value[..Min(|value|, Cut(n))]);
  }

  lemma LongLookup(m: map<string, string>, key: string, value: string, n: nat)
    requires Absent(m, key) && 0 < n <= MAX_SEGMENTS && Cuttable(value, n)
    ensures var now := WithSegments(m, key, value, n);
            Present(now, key) && Lookup(now, key) == value[..Min(|value|, Cut(n))]
  {
    AbsentCut(m, key);
    WithSegmentsAt(m, key, value, n, 0);
    WithSegmentsHas(m, key, value, n, key);
    NotOwnSegment(key, n);
    JoinedPieces(m, key, value, n, 0);
    assert value[0..Min(|value|, Cut(n))] == value[..Min(|value|, Cut(n))];
  }
}
