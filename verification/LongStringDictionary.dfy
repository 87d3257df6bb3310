/** long_string_dictionary.cc: values longer than a slot, cut into segments. */
module LongStringDictionary {
  import opened Wrappers
  import opened LongStrings
  import N = NonAllocatingMap

  class LongStringDictionary {
    const slots: N.NonAllocatingMap
    /** The keys that clients use. */
    ghost const clients: set<string>

    ghost predicate Valid()
      reads this, slots, slots.entries
    {
      slots.Valid() && Clients(clients) && WellKept(slots.Map(), clients)
    }

    /** What the clients see. */
    ghost function Values(): map<string, string>
      reads this, slots, slots.entries
    {
      View(slots.Map(), clients)
    }

    constructor (ghost clients: set<string>)
      requires Clients(clients)
      ensures Valid() && Values() == map[] && this.clients == clients && fresh(slots) && fresh(slots.entries)
    {
      slots := new N.NonAllocatingMap();
      this.clients := clients;
    }

    /** The values of the key's segments, up to the first that is missing. */
    method JoinSegments(key: string) returns (foundSegment: bool, value: string)
      requires slots.Valid() && HasRoom(key)
      ensures value == Joined(slots.Map(), key, 0) && foundSegment == (SegmentKey(key, 0) in slots.Map())
    {
      foundSegment, value := false, "";
      var i := 0;
      while i < MAX_SEGMENTS
        invariant 0 <= i <= MAX_SEGMENTS && foundSegment == (i > 0)
        invariant i > 0 ==> SegmentKey(key, 0) in slots.Map()
        invariant Joined(slots.Map(), key, 0) == value + Joined(slots.Map(), key, i)
      {
        var segment := slots.GetValueForKey(SegmentKey(key, i));
        if segment.None? {
          break;
        }
        foundSegment := true;
        Appended(value, segment.value, Joined(slots.Map(), key, i + 1));
        value := value + segment.value;
        i := i + 1;
      }
      Appended(value, "", "");
    }

    /** The value, put together; the empty string for a key that is not there. */
    method GetValueForKey(key: string) returns (value: string)
      requires Valid() && key in clients
      ensures value == if key in Values() then Values()[key] else ""
    {
      assert HasRoom(key);
      var whole := slots.GetValueForKey(key);
      if whole.Some? {
        return whole.value;
      }
      var foundSegment: bool;
      foundSegment, value := JoinSegments(key);
      if !foundSegment {
        value := "";
      }
    }

    /** Removes segments up to the first that is missing. */
    method RemoveSegments(key: string) returns (count: nat)
      requires slots.Valid() && HasRoom(key)
      modifies slots.entries
      ensures slots.Valid() && count <= MAX_SEGMENTS
      ensures slots.Map() == old(slots.Map()) - SegmentNames(key, count)
      ensures count < MAX_SEGMENTS ==> SegmentKey(key, count) !in old(slots.Map())
      ensures count > 0 ==> SegmentKey(key, 0) in old(slots.Map())
    {
      count := 0;
      while count < MAX_SEGMENTS
        invariant count <= MAX_SEGMENTS && slots.Valid()
        invariant slots.Map() == old(slots.Map()) - SegmentNames(key, count)
        invariant count > 0 ==> SegmentKey(key, 0) in old(slots.Map())
      {
        OneLess(old(slots.Map()), key, count);
        var there := slots.RemoveKey(SegmentKey(key, count));
        if !there {
          break;
        }
        count := count + 1;
      }
    }

    /** Removes the key, whole or in segments. */
    method RemoveKey(key: string) returns (removed: bool)
      requires Valid() && key in clients
      modifies slots.entries
      ensures Valid() && removed == (key in old(Values()))
      ensures Values() == old(Values()) - {key}
      ensures slots.Map() == old(slots.Map()) - OwnNames(key)
    {
      ghost var m := slots.Map();
      assert HasRoom(key) && WellCut(m, key);
      Removed(m, clients, key);
      removed := slots.RemoveKey(key);
      if removed {
        OwnOnly(m, key);
        return;
      }
      assert m - {key} == m;
      var count := RemoveSegments(key);
      AllSegments(m, key, count);
      return count != 0;
    }

    /** One segment; without a slot it is dropped. */
    method SetSegment(key: string, i: nat, segment: string, ghost value: string, ghost m: map<string, string>,
                      ghost free: nat)
      requires slots.Valid() && HasRoom(key) && i < MAX_SEGMENTS && Cut(i) < |value| && segment == Piece(value, i)
      requires Filling(m, key, value, i, free, slots.Map())
      modifies slots.entries
      ensures slots.Valid() && Filling(m, key, value, i + 1, free, slots.Map())
    {
      SegmentSet(m, key, value, i, free);
      var index := slots.SetKeyValue(SegmentKey(key, i), Some(segment));
    }

    /** As much of what remains as fits a slot, and the rest. */
    static method CutSegment(remainValue: string, ghost value: string, ghost i: nat)
        returns (segment: string, rest: string)
      requires remainValue == Remaining(value, i) && remainValue != ""
      ensures Cut(i) < |value| && segment == Piece(value, i) && rest == Remaining(value, i + 1)
    {
      var length := Min(|remainValue|, SEGMENT);
      RemainingNext(value, i);
      segment, rest := remainValue[..length], remainValue[length..];
    }

    /** Segment after segment, until the value or the suffixes are used up. */
    method SetSegments(key: string, value: string, ghost m: map<string, string>, ghost free: nat) returns (i: nat)
      requires slots.Valid() && HasRoom(key) && Filling(m, key, value, 0, free, slots.Map())
      modifies slots.entries
      ensures slots.Valid() && Filling(m, key, value, i, free, slots.Map())
      ensures i == MAX_SEGMENTS || Remaining(value, i) == ""
    {
      var remainValue := value;
      i := 0;
      while i < MAX_SEGMENTS && remainValue != ""
        invariant i <= MAX_SEGMENTS && slots.Valid() && Filling(m, key, value, i, free, slots.Map())
        invariant remainValue == Remaining(value, i)
      {
        var segment: string;
        segment, remainValue := CutSegment(remainValue, value, i);
        SetSegment(key, i, segment, value, m, free);
        i := i + 1;
      }
    }

    /** Stores a value for a key that has none. */
    method Add(key: string, value: string)
      requires Valid() && key in clients && Absent(slots.Map(), key)
      modifies slots.entries
      ensures Valid() && Values() == Put(old(Values()), key, value)
    {
      ghost var m := slots.Map();
      assert HasRoom(key);
      slots.AtMost();
      if |value| <= SEGMENT {
        PutShort(m, clients, key, value);
        var index := slots.SetKeyValue(key, Some(value));
      } else {
        var i := SetSegments(key, value, m, N.NUM_ENTRIES - |m|);
        Fitted(m, key, value, N.NUM_ENTRIES - |m|, i);
        PutLong(m, clients, key, value, slots.Map());
      }
    }

    /** Replaces the key's value, or removes it. */
    method SetKeyValue(key: string, value: Option<string>)
      requires Valid() && key in clients
      modifies slots.entries
      ensures Valid()
      ensures Values() == if value.None? then old(Values()) - {key} else Set(old(Values()), key, value.value)
    {
      var removed := RemoveKey(key);
      if value.Some? {
        assert Absent(slots.Map(), key);
        Add(key, value.value);
      }
    }
  }

  /** After `i` segments as many are stored as found a slot. */
  ghost predicate Filling(m: map<string, string>, key: string, value: string, i: nat, free: nat,
                          now: map<string, string>) {
    && i <= MAX_SEGMENTS && Absent(m, key) && |m| + free == N.NUM_ENTRIES
    && Cuttable(value, i) && Cuttable(value, Min(i, free))
    && now == WithSegments(m, key, value, Min(i, free))
  }

  function Remaining(value: string, i: nat): string {
    value[Min(|value|, Cut(i))..]
  }

  lemma RemainingDone(value: string, i: nat)
    requires Remaining(value, i) == ""
    ensures |value| <= Cut(i)
  {
  }

  lemma RemainingNext(value: string, i: nat)
    requires Remaining(value, i) != ""
    ensures Cut(i) < |value|
    ensures var length := Min(|Remaining(value, i)|, SEGMENT);
            Remaining(value, i)[..length] == Piece(value, i) && Remaining(value, i)[length..] == Remaining(value, i + 1)
  {
  }

  lemma PutShort(m: map<string, string>, keys: set<string>, key: string, value: string)
    requires Clients(keys) && key in keys && WellKept(m, keys) && Absent(m, key) && |value| <= SEGMENT
    ensures key !in m
    ensures var now := if |m| < N.NUM_ENTRIES then m[key := value] else m;
            WellKept(now, keys) && View(now, keys) == Put(View(m, keys), key, value)
  {
    Accounted(m, keys);
    StoredShort(m, keys, key, value);
  }

  lemma PutLong(m: map<string, string>, keys: set<string>, key: string, value: string, now: map<string, string>)
    requires Clients(keys) && key in keys && WellKept(m, keys) && Absent(m, key) && |m| <= N.NUM_ENTRIES
    requires |value| > SEGMENT && AsManyAsFit(m, key, value, N.NUM_ENTRIES - |m|, now)
    ensures WellKept(now, keys) && View(now, keys) == Put(View(m, keys), key, value)
  {
    var free: nat := N.NUM_ENTRIES - |m|;
    StoredAsFits(m, keys, key, value, free, now);
    Accounted(m, keys);
    PutLongIs(View(m, keys), key, value, free);
  }

  lemma PutLongIs(values: map<string, string>, key: string, value: string, free: nat)
    requires |value| > SEGMENT && Free(values) == free
    ensures Put(values, key, value) ==
            if free == 0 then values else values[key := value[..Min(|value|, Cut(Min(MAX_SEGMENTS, free)))]]
  {
  }

  /** As many segments of the value as there are slots for, up to ten. */
  ghost predicate AsManyAsFit(m: map<string, string>, key: string, value: string, free: nat, now: map<string, string>) {
    exists n: nat | n <= MAX_SEGMENTS && Cuttable(value, n) ::
      && (n == 0 <==> free == 0)
      && Min(|value|, Cut(n)) == Min(|value|, Cut(Min(MAX_SEGMENTS, free)))
      && now == WithSegments(m, key, value, n)
  }

  lemma Fitted(m: map<string, string>, key: string, value: string, free: nat, i: nat)
    requires |value| > SEGMENT && i <= MAX_SEGMENTS && Cuttable(value, i)
    requires i == MAX_SEGMENTS || Remaining(value, i) == ""
    ensures Cuttable(value, Min(i, free))
    ensures AsManyAsFit(m, key, value, free, WithSegments(m, key, value, Min(i, free)))
  {
    if Remaining(value, i) == "" {
      RemainingDone(value, i);
    }
    var n: nat := Min(i, free);
    assert n <= MAX_SEGMENTS && Cuttable(value, n);
  }

  lemma StoredAsFits(m: map<string, string>, keys: set<string>, key: string, value: string, free: nat,
                     now: map<string, string>)
    requires Clients(keys) && key in keys && WellKept(m, keys) && Absent(m, key)
    requires |value| > SEGMENT && AsManyAsFit(m, key, value, free, now)
    ensures WellKept(now, keys)
    ensures View(now, keys) == if free == 0 then View(m, keys)
                               else View(m, keys)[key := value[..Min(|value|, Cut(Min(MAX_SEGMENTS, free)))]]
  {
    var n: nat :| n <= MAX_SEGMENTS && Cuttable(value, n) && (n == 0 <==> free == 0)
                  && Min(|value|, Cut(n)) == Min(|value|, Cut(Min(MAX_SEGMENTS, free)))
                  && now == WithSegments(m, key, value, n);
    if n > 0 {
      StoredLong(m, keys, key, value, n);
    }
  }

  /** The next segment has no entry yet, and gets one exactly if a slot is free. */
  lemma SegmentSet(m: map<string, string>, key: string, value: string, i: nat, free: nat)
    requires i < MAX_SEGMENTS && Cut(i) < |value| && Absent(m, key) && |m| + free == N.NUM_ENTRIES
    ensures Cuttable(value, Min(i, free)) && Cuttable(value, Min(i + 1, free)) && |Piece(value, i)| <= SEGMENT
    ensures var now := WithSegments(m, key, value, Min(i, free));
            && SegmentKey(key, i) !in now
            && WithSegments(m, key, value, Min(i + 1, free)) ==
               if |now| < N.NUM_ENTRIES then now[SegmentKey(key, i) := Piece(value, i)] else now
  {
    WithSegmentsSize(m, key, value, Min(i, free));
    AbsentCut(m, key);
    WithSegmentsEnd(m, key, value, Min(i, free), i);
  }

  lemma OneLess(m: map<string, string>, key: string, i: nat)
    requires i < MAX_SEGMENTS
    ensures SegmentKey(key, i) in m - SegmentNames(key, i) <==> SegmentKey(key, i) in m
    ensures (m - SegmentNames(key, i)) - {SegmentKey(key, i)} == m - SegmentNames(key, i + 1)
  {
    NotASegment(key, i, i);
    assert SegmentNames(key, i + 1) == SegmentNames(key, i) + {SegmentKey(key, i)};
  }

  lemma Appended(a: string, b: string, c: string)
    ensures a + (b + c) == (a + b) + c && a + "" == a
  {
  }

  lemma OwnOnly(m: map<string, string>, key: string)
    requires WellCut(m, key) && key in m
    ensures m - {key} == m - OwnNames(key)
  {
  }

  /** The segments up to the first that is missing are all there are. */
  lemma AllSegments(m: map<string, string>, key: string, i: nat)
    requires WellCut(m, key) && key !in m && i <= MAX_SEGMENTS
    requires i < MAX_SEGMENTS ==> SegmentKey(key, i) !in m
    ensures m - SegmentNames(key, i) == m - OwnNames(key)
  {
    forall j: nat | i <= j < MAX_SEGMENTS
      ensures SegmentKey(key, j) !in m
    {
      NoneAfter(m, key, i, j);
    }
    forall name | name in m
      ensures name in SegmentNames(key, i) <==> name in OwnNames(key)
    {
      if name in OwnNames(key) {
        var j: nat :| j < MAX_SEGMENTS && name == SegmentKey(key, j);
        assert j < i;
      }
    }
  }
}
