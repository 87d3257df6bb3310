/** basic_source_line_resolver.cc: which rules are in force at an address. */
module CfiRecords {
  import opened Addresses
  import opened CfiText
  import opened CfiRules
  import opened Wrappers

  datatype InitRecord = InitRecord(address: Address, size: Address, rules: string) {
    predicate Covers(a: int) {
      address <= a < address + size
    }
  }

  datatype DeltaRecord = DeltaRecord(address: Address, rules: string)

  /** The rules a record's text reports. */
  function Said(text: string): seq<Rule> {
    Read(Words(text)).rules
  }

  /** The last word on a name. */
  function Mention(rules: seq<Rule>, name: string): Option<string> {
    if rules == [] then None
    else if rules[|rules| - 1].name == name then Some(rules[|rules| - 1].expression)
    else Mention(rules[..|rules| - 1], name)
  }

  // --------------------------------------------------- what rules add up to

  ghost predicate NoEmpty(rules: seq<Rule>) {
    forall i :: 0 <= i < |rules| ==> rules[i].expression != ""
  }

  lemma {:induction false} ReadNoEmpty(tokens: seq<string>)
    requires AllWords(tokens)
    ensures NoEmpty(Read(tokens).rules)
    decreases |tokens|
  {
    if tokens != [] && IsName(tokens[0]) && |tokens[0]| >= 2 {
      var n := ExpressionLength(tokens[1..]);
      assert [] + tokens[1..][..n] == tokens[1..][..n];
      if n > 0 {
        JoinNotEmpty(tokens[1..][..n]);
      }
      ReadNoEmpty(tokens[1..][n..]);
    }
  }

  lemma SaidNoEmpty(text: string)
    ensures NoEmpty(Said(text))
  {
    WordsAreWords(text);
    ReadNoEmpty(Words(text));
  }

  lemma {:induction false} WithAllLast(rules: RuleSet, more: seq<Rule>)
    requires more != []
    ensures rules.WithAll(more) == rules.WithAll(more[..|more| - 1]).With(more[|more| - 1])
    decreases |more|
  {
    if |more| == 1 {
      assert more[1..] == [] && more[..0] == [];
    } else {
      assert more[1..][..|more| - 2] == more[..|more| - 1][1..];
      WithAllLast(rules.With(more[0]), more[1..]);
    }
  }

  /** After more rules a name's rule is the last one that mentions it. */
  lemma {:induction false} LookupAfter(rules: RuleSet, more: seq<Rule>, name: string)
    requires NoEmpty(more)
    ensures rules.WithAll(more).Lookup(name) ==
            if Mention(more, name).Some? then Mention(more, name) else rules.Lookup(name)
    decreases |more|
  {
    if more != [] {
      WithAllLast(rules, more);
      LookupAfter(rules, more[..|more| - 1], name);
      LookupWith(rules.WithAll(more[..|more| - 1]), more[|more| - 1], name);
    }
  }

  lemma LookupWith(rules: RuleSet, r: Rule, name: string)
    requires r.expression != ""
    ensures rules.With(r).Lookup(name) == if r.name == name then Some(r.expression) else rules.Lookup(name)
  {
  }

  // ------------------------------------------------------- the rules in force

  predicate Ascending(deltas: seq<DeltaRecord>) {
    forall i, j :: 0 <= i < j < |deltas| ==> deltas[i].address < deltas[j].address
  }

  predicate RecordsApart(a: InitRecord, b: InitRecord) {
    a.address + a.size <= b.address || b.address + b.size <= a.address
  }

  /** They cover no address both. */
  lemma ApartByAddresses(a: InitRecord, b: InitRecord)
    requires a.size > 0 && b.size > 0
    ensures RecordsApart(a, b) <==> forall x :: !(a.Covers(x) && b.Covers(x))
    ensures forall x :: a.Covers(x) <==> a.address <= x <= a.address + (a.size - 1)
  {
    assert a.Covers(a.address) && b.Covers(b.address);
  }

  predicate ProperInits(inits: seq<InitRecord>) {
    && (forall i :: 0 <= i < |inits| ==> 0 < inits[i].size && inits[i].address + inits[i].size <= ADDRESS_SPACE)
    && (forall i, j :: 0 <= i < j < |inits| ==> RecordsApart(inits[i], inits[j]))
  }

  /** The rules of the initial record and of these deltas, one after the other. */
  ghost function Folded(init: string, deltas: seq<DeltaRecord>, lo: nat, hi: nat): RuleSet
    requires lo <= hi <= |deltas|
  {
    if lo == hi then EMPTY.WithAll(Said(init)) else Folded(init, deltas, lo, hi - 1).WithAll(Said(deltas[hi - 1].rules))
  }

  /** The delta applies at the address: it is between the initial record's start and it. */
  predicate Applies(d: DeltaRecord, init: InitRecord, a: int) {
    init.address <= d.address <= a
  }

  /** An initial record covers its size from its start; a delta applies at its own address,
      and at the initial record's. */
  lemma AppliesByExample(rules: string)
    ensures var init := InitRecord(0x1000, 0x10, rules);
            && init.Covers(0x1000) && init.Covers(0x100F) && !init.Covers(0x1010) && !init.Covers(0xFFF)
            && Applies(DeltaRecord(0x1000, rules), init, 0x1008) && Applies(DeltaRecord(0x1008, rules), init, 0x1008)
            && !Applies(DeltaRecord(0xFFF, rules), init, 0x1008) && !Applies(DeltaRecord(0x1009, rules), init, 0x1008)
  {
  }

  /** Each name has the rule of the highest-addressed record that mentions it, among the
      initial record and the deltas up to the address. */
  ghost predicate InForce(rules: RuleSet, init: InitRecord, deltas: seq<DeltaRecord>, a: int) {
    forall name ::
      && (Silent(deltas, init, a, init.address, name) ==> rules.Lookup(name) == Mention(Said(init.rules), name))
      && forall d | d in deltas && Applies(d, init, a) && Mention(Said(d.rules), name).Some? ::
           Silent(deltas, init, a, d.address + 1, name) ==> rules.Lookup(name) == Mention(Said(d.rules), name)
  }

  /** No delta that applies, from this address on, mentions the name. */
  ghost predicate Silent(deltas: seq<DeltaRecord>, init: InitRecord, a: int, from: int, name: string) {
    forall d | d in deltas && Applies(d, init, a) && from <= d.address :: Mention(Said(d.rules), name).None?
  }

  /** In the folded rules a name has the rule of the last delta that mentions it. */
  lemma {:induction false} FoldedLookup(init: string, deltas: seq<DeltaRecord>, lo: nat, k: nat, hi: nat, name: string)
    requires lo <= k <= hi <= |deltas|
    requires forall i | k <= i < hi :: Mention(Said(deltas[i].rules), name).None?
    ensures Folded(init, deltas, lo, hi).Lookup(name) ==
            if k == lo then Mention(Said(init), name) else Folded(init, deltas, lo, k).Lookup(name)
    decreases hi
  {
    if hi == lo {
      SaidNoEmpty(init);
      LookupAfter(EMPTY, Said(init), name);
    } else {
      SaidNoEmpty(deltas[hi - 1].rules);
      LookupAfter(Folded(init, deltas, lo, hi - 1), Said(deltas[hi - 1].rules), name);
      if k < hi {
        FoldedLookup(init, deltas, lo, k, hi - 1, name);
      }
    }
  }

  lemma LastWord(init: string, deltas: seq<DeltaRecord>, lo: nat, k: nat, hi: nat, name: string)
    requires lo <= k < hi <= |deltas| && Mention(Said(deltas[k].rules), name).Some?
    requires forall i | k < i < hi :: Mention(Said(deltas[i].rules), name).None?
    ensures Folded(init, deltas, lo, hi).Lookup(name) == Mention(Said(deltas[k].rules), name)
  {
    FoldedLookup(init, deltas, lo, k + 1, hi, name);
    SaidNoEmpty(deltas[k].rules);
    LookupAfter(Folded(init, deltas, lo, k), Said(deltas[k].rules), name);
  }

  /** The deltas of these positions are those that apply. */
  ghost predicate Window(deltas: seq<DeltaRecord>, init: InitRecord, a: int, lo: nat, hi: nat) {
    && lo <= hi <= |deltas|
    && forall i | 0 <= i < |deltas| :: Applies(deltas[i], init, a) <==> lo <= i < hi
  }

  lemma FoldedInForce(init: InitRecord, deltas: seq<DeltaRecord>, a: int, lo: nat, hi: nat)
    requires Ascending(deltas) && Window(deltas, init, a, lo, hi)
    ensures InForce(Folded(init.rules, deltas, lo, hi), init, deltas, a)
  {
    var rules := Folded(init.rules, deltas, lo, hi);
    forall name
      ensures Silent(deltas, init, a, init.address, name) ==> rules.Lookup(name) == Mention(Said(init.rules), name)
    {
      if Silent(deltas, init, a, init.address, name) {
        forall i | lo <= i < hi
          ensures Mention(Said(deltas[i].rules), name).None?
        {
          assert deltas[i] in deltas;
        }
        FoldedLookup(init.rules, deltas, lo, lo, hi, name);
      }
    }
    forall name, d | d in deltas && Applies(d, init, a) && Mention(Said(d.rules), name).Some?
                     && Silent(deltas, init, a, d.address + 1, name)
      ensures rules.Lookup(name) == Mention(Said(d.rules), name)
    {
      HighestSpeaks(init, deltas, a, lo, hi, name, d);
    }
  }

  lemma HighestSpeaks(init: InitRecord, deltas: seq<DeltaRecord>, a: int, lo: nat, hi: nat, name: string,
                      d: DeltaRecord)
    requires Ascending(deltas) && Window(deltas, init, a, lo, hi)
    requires d in deltas && Applies(d, init, a) && Mention(Said(d.rules), name).Some?
    requires Silent(deltas, init, a, d.address + 1, name)
    ensures Folded(init.rules, deltas, lo, hi).Lookup(name) == Mention(Said(d.rules), name)
  {
    var k: nat :| k < |deltas| && deltas[k] == d;
    forall i | k < i < hi
      ensures Mention(Said(deltas[i].rules), name).None?
    {
      assert deltas[i] in deltas;
    }
    LastWord(init.rules, deltas, lo, k, hi, name);
  }

  // --------------------------------------------------------------- the module

  class Module {
    var cfiInitialRules: seq<InitRecord>
    var cfiDeltaRules: seq<DeltaRecord>

    predicate Valid()
      reads this
    {
      ProperInits(cfiInitialRules) && Ascending(cfiDeltaRules)
    }

    constructor ()
      ensures Valid() && cfiInitialRules == [] && cfiDeltaRules == []
    {
      cfiInitialRules, cfiDeltaRules := [], [];
    }

    /** A STACK CFI INIT record; one that is empty, wraps or overlaps another is dropped. */
    method StoreInit(address: Address, size: Address, rules: string)
      requires Valid()
      modifies this`cfiInitialRules
      ensures Valid()
      ensures var r := InitRecord(address, size, rules);
              cfiInitialRules == old(cfiInitialRules) +
                if ProperInits(old(cfiInitialRules) + [r]) then [r] else []
    {
      var r := InitRecord(address, size, rules);
      if size == 0 || address + (size - 1) >= ADDRESS_SPACE {
        assert (cfiInitialRules + [r])[|cfiInitialRules|] == r;
        return;
      }
      for i := 0 to |cfiInitialRules|
        invariant forall j :: 0 <= j < i ==> RecordsApart(cfiInitialRules[j], r)
        invariant cfiInitialRules == old(cfiInitialRules)
      {
        if !RecordsApart(cfiInitialRules[i], r) {
          assert !RecordsApart((cfiInitialRules + [r])[i], (cfiInitialRules + [r])[|cfiInitialRules|]);
          return;
        }
      }
      cfiInitialRules := cfiInitialRules + [r];
    }

    /** The first delta at or above an address. */
    method LowerBound(address: Address) returns (k: nat)
      requires Valid()
      ensures k <= |cfiDeltaRules|
      ensures forall i :: 0 <= i < k ==> cfiDeltaRules[i].address < address
      ensures forall i :: k <= i < |cfiDeltaRules| ==> address <= cfiDeltaRules[i].address
    {
      k := 0;
      while k < |cfiDeltaRules| && cfiDeltaRules[k].address < address
        invariant k <= |cfiDeltaRules|
        invariant forall i :: 0 <= i < k ==> cfiDeltaRules[i].address < address
      {
        k := k + 1;
      }
    }

    /** A STACK CFI delta record: the last one at an address counts. */
    method StoreDelta(address: Address, rules: string)
      requires Valid()
      modifies this`cfiDeltaRules
      ensures Valid()
      ensures forall d :: d in cfiDeltaRules <==>
                d == DeltaRecord(address, rules) || (d in old(cfiDeltaRules) && d.address != address)
    {
      var k := LowerBound(address);
      var d := DeltaRecord(address, rules);
      ghost var was := cfiDeltaRules;
      if k < |cfiDeltaRules| && cfiDeltaRules[k].address == address {
        cfiDeltaRules := cfiDeltaRules[k := d];
        Assigned(was, k, d);
      } else {
        cfiDeltaRules := cfiDeltaRules[..k] + [d] + cfiDeltaRules[k..];
        Inserted(was, k, d);
      }
    }

    method RetrieveInit(address: Address) returns (init: Option<InitRecord>)
      requires Valid()
      ensures init.Some? ==> init.value in cfiInitialRules && init.value.Covers(address)
      ensures init.None? ==> forall r | r in cfiInitialRules :: !r.Covers(address)
    {
      for i := 0 to |cfiInitialRules|
        invariant forall j :: 0 <= j < i ==> !cfiInitialRules[j].Covers(address)
      {
        if cfiInitialRules[i].Covers(address) {
          return Some(cfiInitialRules[i]);
        }
      }
      return None;
    }

    /** The rules in force at an instruction: none without an initial record that covers
        it and parses. */
    method FindCFIFrameInfo(instruction: Address, base: Address) returns (rules: CFIFrameInfo?)
      requires Valid()
      ensures var a := (instruction - base) % ADDRESS_SPACE;
              if rules == null then
                forall r | r in cfiInitialRules && r.Covers(a) :: !Read(Words(r.rules)).ok
              else
                fresh(rules) && exists r | r in cfiInitialRules && r.Covers(a) ::
                  Read(Words(r.rules)).ok && InForce(rules.Value(), r, cfiDeltaRules, a)
    {
      var address: Address := (instruction - base) % ADDRESS_SPACE;
      var initial := RetrieveInit(address);
      if initial.None? {
        return null;
      }
      var frameInfo := new CFIFrameInfo();
      var ok := ParseCFIRuleSet(initial.value.rules, frameInfo);
      if !ok {
        OnlyOne(cfiInitialRules, initial.value, address);
        return null;
      }
      ApplyDeltas(initial.value, address, frameInfo);
      return frameInfo;
    }

    /** Apply the deltas from the initial record's start up to and including the address. */
    method ApplyDeltas(init: InitRecord, address: Address, frameInfo: CFIFrameInfo)
      requires Valid() && init.Covers(address) && frameInfo.Value() == EMPTY.WithAll(Said(init.rules))
      modifies frameInfo
      ensures InForce(frameInfo.Value(), init, cfiDeltaRules, address)
    {
      var delta := LowerBound(init.address);
      ghost var lo := delta;
      while delta < |cfiDeltaRules| && cfiDeltaRules[delta].address <= address
        invariant lo <= delta <= |cfiDeltaRules|
        invariant forall i :: lo <= i < delta ==> cfiDeltaRules[i].address <= address
        invariant frameInfo.Value() == Folded(init.rules, cfiDeltaRules, lo, delta)
      {
        var parsed := ParseCFIRuleSet(cfiDeltaRules[delta].rules, frameInfo);
        delta := delta + 1;
      }
      FoldedInForce(init, cfiDeltaRules, address, lo, delta);
    }
  }

  method ParseCFIRuleSet(ruleSet: string, frameInfo: CFIFrameInfo) returns (ok: bool)
    modifies frameInfo
    ensures ok == Read(Words(ruleSet)).ok
    ensures frameInfo.Value() == old(frameInfo.Value()).WithAll(Said(ruleSet))
  {
    var handler := new CFIFrameInfoParseHandler(frameInfo);
    var parser := new CFIRuleParser(handler);
    ok := parser.Parse(ruleSet);
  }

  lemma OnlyOne(inits: seq<InitRecord>, r: InitRecord, a: int)
    requires ProperInits(inits) && r in inits && r.Covers(a)
    ensures forall s | s in inits && s.Covers(a) :: s == r
  {
    var i :| 0 <= i < |inits| && inits[i] == r;
    forall s | s in inits && s.Covers(a)
      ensures s == r
    {
      var j :| 0 <= j < |inits| && inits[j] == s;
    }
  }

  lemma Assigned(was: seq<DeltaRecord>, k: nat, d: DeltaRecord)
    requires Ascending(was) && k < |was| && was[k].address == d.address
    ensures Ascending(was[k := d])
    ensures forall e :: e in was[k := d] <==> e == d || (e in was && e.address != d.address)
  {
    var now := was[k := d];
    assert now[k] == d;
    forall e
      ensures e in now <==> e == d || (e in was && e.address != d.address)
    {
      if e in now && e != d {
        var i :| 0 <= i < |now| && now[i] == e;
        assert was[i] == e && i != k;
      }
      if e in was && e.address != d.address {
        var i :| 0 <= i < |was| && was[i] == e;
        assert now[i] == e;
      }
    }
  }

  lemma Inserted(was: seq<DeltaRecord>, k: nat, d: DeltaRecord)
    requires Ascending(was) && k <= |was|
    requires forall i | 0 <= i < k :: was[i].address < d.address
    requires forall i | k <= i < |was| :: d.address < was[i].address
    ensures Ascending(was[..k] + [d] + was[k..])
    ensures forall e :: e in was[..k] + [d] + was[k..] <==> e == d || (e in was && e.address != d.address)
  {
    assert was == was[..k] + was[k..];
  }
}
