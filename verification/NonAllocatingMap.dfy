/** simple_string_dictionary.h: a map in a fixed array of slots. */
module NonAllocatingMap {
  import opened Wrappers

  const KEY_SIZE: nat := 256
  const VALUE_SIZE: nat := 256
  const NUM_ENTRIES: nat := 64

  /** A slot with an empty key holds nothing. */
  datatype Entry = Entry(key: string, value: string) {
    predicate IsActive() {
      key != ""
    }
  }

  predicate IsKey(key: string) {
    key != "" && |key| < KEY_SIZE
  }

  /** As much of a string as fits a slot. */
  function Clip(value: string): (r: string)
    ensures |r| < VALUE_SIZE && r <= value && (|value| < VALUE_SIZE ==> r == value)
  {
    if |value| < VALUE_SIZE then value else value[..VALUE_SIZE - 1]
  }

  /** Up to 255 characters are kept. */
  lemma ClipsAt255(value: string)
    ensures Clip(value) == if |value| <= 255 then value else value[..255]
    ensures IsKey(value) <==> value != "" && |value| <= 255
  {
  }

  // ------------------------------------------------- what the slots stand for

  predicate DifferentKeys(slots: seq<Entry>, i: nat, j: nat)
    requires i < |slots| && j < |slots|
  {
    slots[i].IsActive() && i != j ==> slots[i].key != slots[j].key
  }

  /** No two active slots have the same key. */
  predicate Unique(slots: seq<Entry>) {
    forall i: nat, j: nat | i < |slots| && j < |slots| :: DifferentKeys(slots, i, j)
  }

  ghost predicate Holds(slots: seq<Entry>, key: string, i: nat) {
    i < |slots| && slots[i].IsActive() && slots[i].key == key
  }

  ghost function Keys(slots: seq<Entry>): set<string> {
    set i | 0 <= i < |slots| && slots[i].IsActive() :: slots[i].key
  }

  ghost function SlotOf(slots: seq<Entry>, key: string): (i: nat)
    requires key in Keys(slots)
    ensures Holds(slots, key, i)
  {
    var i :| 0 <= i < |slots| && slots[i].IsActive() && slots[i].key == key;
    i
  }

  ghost function Contents(slots: seq<Entry>): map<string, string> {
    map key | key in Keys(slots) :: slots[SlotOf(slots, key)].value
  }

  /** How many slots are active. */
  function Active(slots: seq<Entry>): nat {
    if slots == [] then 0 else Active(slots[..|slots| - 1]) + if slots[|slots| - 1].IsActive() then 1 else 0
  }

  lemma Found(slots: seq<Entry>, key: string, i: nat)
    requires Unique(slots) && Holds(slots, key, i)
    ensures key in Contents(slots) && Contents(slots)[key] == slots[i].value
  {
    assert key in Keys(slots);
    assert DifferentKeys(slots, i, SlotOf(slots, key));
  }

  lemma NotFound(slots: seq<Entry>, key: string)
    requires forall i: nat | i < |slots| :: slots[i].key != key
    ensures key !in Contents(slots)
  {
  }

  /** As many keys as active slots. */
  lemma {:induction false} CountKeys(slots: seq<Entry>)
    requires Unique(slots)
    ensures |Keys(slots)| == Active(slots) <= |slots|
  {
    if slots != [] {
      var n := |slots| - 1;
      var front := slots[..n];
      forall i: nat, j: nat | i < n && j < n
        ensures DifferentKeys(front, i, j)
      {
        assert DifferentKeys(slots, i, j);
      }
      CountKeys(front);
      if slots[n].IsActive() {
        forall i: nat | i < n
          ensures front[i].IsActive() ==> front[i].key != slots[n].key
        {
          assert DifferentKeys(slots, i, n);
        }
        assert slots[n].key !in Keys(front);
        assert Keys(slots) == Keys(front) + {slots[n].key};
      } else {
        assert Keys(slots) == Keys(front);
      }
    }
  }

  lemma CountContents(slots: seq<Entry>)
    requires Unique(slots)
    ensures |Contents(slots)| == Active(slots) <= |slots|
  {
    CountKeys(slots);
    assert Contents(slots).Keys == Keys(slots);
  }

  /** Overwriting a slot: its old key goes, its new one comes. */
  lemma Overwrite(slots: seq<Entry>, i: nat, e: Entry)
    requires Unique(slots) && i < |slots|
    requires e.IsActive() ==> forall j: nat | j < |slots| && j != i :: slots[j].key != e.key
    ensures Unique(slots[i := e])
    ensures Contents(slots[i := e]) ==
            var rest := Contents(slots) - {slots[i].key};
            if e.IsActive() then rest[e.key := e.value] else rest
  {
    var now := slots[i := e];
    forall p: nat, q: nat | p < |now| && q < |now|
      ensures DifferentKeys(now, p, q)
    {
      assert DifferentKeys(slots, p, q);
    }
    var rest := Contents(slots) - {slots[i].key};
    var want := if e.IsActive() then rest[e.key := e.value] else rest;
    forall key
      ensures key in Contents(now) <==> key in want
      ensures key in want ==> Contents(now)[key] == want[key]
    {
      OverwriteAt(slots, i, e, key);
    }
  }

  lemma OverwriteAt(slots: seq<Entry>, i: nat, e: Entry, key: string)
    requires Unique(slots) && i < |slots| && Unique(slots[i := e])
    requires e.IsActive() ==> forall j: nat | j < |slots| && j != i :: slots[j].key != e.key
    ensures var rest := Contents(slots) - {slots[i].key};
            var want := if e.IsActive() then rest[e.key := e.value] else rest;
            var now := Contents(slots[i := e]);
            (key in now <==> key in want) && (key in want ==> now[key] == want[key])
  {
    var now := slots[i := e];
    if key in Contents(now) {
      var j := SlotOf(now, key);
      Found(now, key, j);
      if j != i {
        assert Holds(slots, key, j);
        Found(slots, key, j);
        assert DifferentKeys(slots, j, i);
      }
    }
    if key in Contents(slots) && key != slots[i].key {
      var j := SlotOf(slots, key);
      Found(slots, key, j);
      assert Holds(now, key, j);
      Found(now, key, j);
    }
    if e.IsActive() && key == e.key {
      assert Holds(now, key, i);
      Found(now, key, i);
    }
  }

  // ------------------------------------------------------------------ the map

  class NonAllocatingMap {
    const entries: array<Entry>

    ghost predicate Valid()
      reads this, entries
    {
      && entries.Length == NUM_ENTRIES && Unique(entries[..])
      && forall i | 0 <= i < NUM_ENTRIES :: |entries[i].key| < KEY_SIZE && |entries[i].value| < VALUE_SIZE
    }

    ghost function Map(): map<string, string>
      reads this, entries
    {
      Contents(entries[..])
    }

    constructor ()
      ensures Valid() && Map() == map[] && fresh(entries)
    {
      entries := new Entry[NUM_ENTRIES](i => Entry("", ""));
      new;
      assert forall i | 0 <= i < NUM_ENTRIES :: entries[..][i] == Entry("", "");
    }

    lemma AtMost()
      requires Valid()
      ensures |Map()| <= NUM_ENTRIES
    {
      CountContents(entries[..]);
    }

    /** The number of active entries, at most the number of slots. */
    method GetCount() returns (count: nat)
      requires Valid()
      ensures count == |Map()| <= NUM_ENTRIES
    {
      count := 0;
      for i := 0 to NUM_ENTRIES
        invariant count == Active(entries[..i])
      {
        assert entries[..i + 1][..i] == entries[..i];
        if entries[i].IsActive() {
          count := count + 1;
        }
      }
      assert entries[..NUM_ENTRIES] == entries[..];
      CountContents(entries[..]);
    }

    /** The slot of a key, or the number of slots. */
    method GetEntryIndexForKey(key: string) returns (index: nat)
      requires Valid()
      ensures index <= NUM_ENTRIES
      ensures if index < NUM_ENTRIES then entries[index].key == key
              else forall i | 0 <= i < NUM_ENTRIES :: entries[i].key != key
      ensures key != "" ==> (index < NUM_ENTRIES <==> key in Map())
      ensures key != "" && index < NUM_ENTRIES ==> Map()[key] == entries[index].value
    {
      for i := 0 to NUM_ENTRIES
        invariant forall j | 0 <= j < i :: entries[j].key != key
      {
        if key == entries[i].key {
          if key != "" {
            assert Holds(entries[..], key, i);
            Found(entries[..], key, i);
          }
          return i;
        }
      }
      NotFound(entries[..], key);
      return NUM_ENTRIES;
    }

    method GetValueForKey(key: string) returns (value: Option<string>)
      requires Valid() && IsKey(key)
      ensures value == if key in Map() then Some(Map()[key]) else None
    {
      var index := GetEntryIndexForKey(key);
      if index == NUM_ENTRIES {
        return None;
      }
      return Some(entries[index].value);
    }

    /** Removes the slot; a key that was not found has no slot. */
    method RemoveAtIndex(index: nat) returns (removed: bool)
      requires Valid()
      modifies entries
      ensures Valid() && removed == (index < NUM_ENTRIES)
      ensures Map() == if removed then old(Map()) - {old(entries[index].key)} else old(Map())
    {
      if index >= NUM_ENTRIES {
        return false;
      }
      Overwrite(entries[..], index, Entry("", ""));
      ghost var was := entries[..];
      entries[index] := Entry("", "");
      assert entries[..] == was[index := Entry("", "")];
      return true;
    }

    method RemoveKey(key: string) returns (removed: bool)
      requires Valid() && IsKey(key)
      modifies entries
      ensures Valid() && removed == (key in old(Map()))
      ensures Map() == old(Map()) - {key}
    {
      var index := GetEntryIndexForKey(key);
      removed := RemoveAtIndex(index);
    }

    /** The first slot that is not active, or the number of slots. */
    method FirstFree() returns (index: nat)
      requires Valid()
      ensures index <= NUM_ENTRIES
      ensures if index < NUM_ENTRIES then !entries[index].IsActive() && |Map()| < NUM_ENTRIES
              else |Map()| == NUM_ENTRIES
    {
      CountContents(entries[..]);
      for i := 0 to NUM_ENTRIES
        invariant forall j | 0 <= j < i :: entries[j].IsActive()
      {
        if !entries[i].IsActive() {
          SomeInactive(entries[..], i);
          return i;
        }
      }
      AllActive(entries[..]);
      return NUM_ENTRIES;
    }

    /** Stores the value, cut to what a slot holds. When all slots are taken and the key
        has none, nothing changes. No value at all removes the key. */
    method SetKeyValue(key: string, value: Option<string>) returns (index: nat)
      requires Valid() && IsKey(key)
      modifies entries
      ensures Valid()
      ensures var stored := value.Some? && (key in old(Map()) || |old(Map())| < NUM_ENTRIES);
              && (if stored then index < NUM_ENTRIES && entries[index].key == key else index == NUM_ENTRIES)
              && Map() == if value.None? then old(Map()) - {key}
                          else if stored then old(Map())[key := Clip(value.value)]
                          else old(Map())
    {
      if value.None? {
        var removed := RemoveKey(key);
        return NUM_ENTRIES;
      }
      index := GetEntryIndexForKey(key);
      if index == NUM_ENTRIES {
        index := FirstFree();
        if index == NUM_ENTRIES {
          return;
        }
      } else {
        ghost var was := entries[..];
        forall j: nat | j < |was| && j != index
          ensures was[j].key != key
        {
          assert DifferentKeys(was, index, j);
        }
      }
      Store(index, key, value.value);
    }

    /** Sets the value of a key by its slot. */
    method SetValueAtIndex(index: nat, value: string)
      requires Valid() && index < NUM_ENTRIES && entries[index].IsActive()
      modifies entries
      ensures Valid() && entries[index].key == old(entries[index].key)
      ensures Map() == old(Map())[old(entries[index].key) := Clip(value)]
    {
      ghost var was := entries[..];
      var key := entries[index].key;
      forall j: nat | j < |was| && j != index
        ensures was[j].key != key
      {
        assert DifferentKeys(was, index, j);
      }
      Store(index, key, value);
    }

    method Store(index: nat, key: string, value: string)
      requires Valid() && IsKey(key) && index < NUM_ENTRIES
      requires entries[index].key == key || entries[index].key == ""
      requires forall j: nat | j < NUM_ENTRIES && j != index :: entries[j].key != key
      modifies entries
      ensures Valid() && entries[index].key == key
      ensures Map() == old(Map())[key := Clip(value)]
    {
      ghost var was := entries[..];
      ghost var e := Entry(key, Clip(value));
      Overwrite(was, index, e);
      entries[index] := Entry(key, Clip(value));
      assert entries[..] == was[index := e];
      assert (Contents(was) - {was[index].key})[key := e.value] == Contents(was)[key := e.value];
    }
  }

  lemma {:induction false} SomeInactive(slots: seq<Entry>, i: nat)
    requires i < |slots| && !slots[i].IsActive()
    ensures Active(slots) < |slots|
  {
    if i < |slots| - 1 {
      SomeInactive(slots[..|slots| - 1], i);
    } else {
      ActiveBound(slots[..|slots| - 1]);
    }
  }

  lemma {:induction false} ActiveBound(slots: seq<Entry>)
    ensures Active(slots) <= |slots|
  {
    if slots != [] {
      ActiveBound(slots[..|slots| - 1]);
    }
  }

  lemma {:induction false} AllActive(slots: seq<Entry>)
    requires forall j | 0 <= j < |slots| :: slots[j].IsActive()
    ensures Active(slots) == |slots|
  {
    if slots != [] {
      AllActive(slots[..|slots| - 1]);
    }
  }
}
