/** cfi_frame_info.cc: rule sets in memory, as text, and back. */
module CfiRules {
  import opened CfiText
  import opened Wrappers

  const CFA: string := ".cfa"
  const RA: string := ".ra"

  /** A rule: what it recovers, and how. */
  datatype Rule = Rule(name: string, expression: string)

  /** The rules in force: the state of a CFIFrameInfo. An empty expression is no rule. */
  datatype RuleSet = RuleSet(cfa: string, ra: string, registers: map<string, string>) {
    function With(r: Rule): RuleSet {
      if r.name == CFA then this.(cfa := r.expression)
      else if r.name == RA then this.(ra := r.expression)
      else this.(registers := registers[r.name := r.expression])
    }

    function WithAll(rules: seq<Rule>): RuleSet
      decreases |rules|
    {
      if rules == [] then this else With(rules[0]).WithAll(rules[1..])
    }

    /** The rule that is in force for a name. */
    function Lookup(name: string): Option<string> {
      if name == CFA then if cfa == "" then None else Some(cfa)
      else if name == RA then if ra == "" then None else Some(ra)
      else if name in registers then Some(registers[name])
      else None
    }
  }

  const EMPTY := RuleSet("", "", map[])

  // ----------------------------------------------------- what a rule set says

  predicate IsName(token: string) {
    token != "" && token[|token| - 1] == ':'
  }

  /** How many tokens make up the expression that comes first. */
  function ExpressionLength(tokens: seq<string>): (n: nat)
    ensures n <= |tokens|
    ensures forall i :: 0 <= i < n ==> !IsName(tokens[i])
    ensures n < |tokens| ==> IsName(tokens[n])
  {
    if tokens == [] || IsName(tokens[0]) then 0 else 1 + ExpressionLength(tokens[1..])
  }

  /** Whether the tokens are a rule set, and the rules that are reported: all those
      ahead of the first fault. */
  datatype Reading = Reading(ok: bool, rules: seq<Rule>)

  /** A rule set is one rule or more, each beginning with a name and a colon. */
  function Read(tokens: seq<string>): Reading
    decreases |tokens|, 0
  {
    if tokens == [] || !IsName(tokens[0]) || |tokens[0]| < 2 then Reading(false, [])
    else Pending(tokens[0][..|tokens[0]| - 1], [], tokens[1..])
  }

  /** A rule's expression is one token or more up to the next name. A colon without a
      name after a rule takes that rule with it. */
  function Pending(name: string, sofar: seq<string>, tokens: seq<string>): Reading
    decreases |tokens|, 1
  {
    var n := ExpressionLength(tokens);
    var expression, rest := sofar + tokens[..n], tokens[n..];
    if expression == [] then Reading(false, [])
    else if rest == [] then Reading(true, [Rule(name, Join(expression))])
    else if |rest[0]| < 2 then Reading(false, [])
    else
      var next := Read(rest);
      Reading(next.ok, [Rule(name, Join(expression))] + next.rules)
  }

  // -------------------------------------------------------------- the objects

  class CFIFrameInfo {
    var cfaRule: string
    var raRule: string
    var registerRules: map<string, string>

    ghost function Value(): RuleSet
      reads this
    {
      RuleSet(cfaRule, raRule, registerRules)
    }

    constructor ()
      ensures Value() == EMPTY
    {
      cfaRule, raRule, registerRules := "", "", map[];
    }

    method SetCFARule(expression: string)
      modifies this
      ensures Value() == old(Value()).With(Rule(CFA, expression))
    {
      cfaRule := expression;
    }

    method SetRARule(expression: string)
      modifies this
      ensures Value() == old(Value()).With(Rule(RA, expression))
    {
      raRule := expression;
    }

    method SetRegisterRule(name: string, expression: string)
      requires name != CFA && name != RA
      modifies this
      ensures Value() == old(Value()).With(Rule(name, expression))
    {
      registerRules := registerRules[name := expression];
    }

    /** The rules as text, registers in the order of the map, which is that of their names. */
    method Serialize() returns (text: string)
      ensures exists order: seq<string> ::
                Lists(order, registerRules) && InNameOrder(order) && text == Rendered(Value(), order)
    {
      text := "";
      if cfaRule != "" {
        text := ".cfa: " + cfaRule;
      }
      if raRule != "" {
        if text != "" {
          text := text + " ";
        }
        text := text + (".ra: " + raRule);
      }
      ghost var order: seq<string> := [];
      var left := registerRules.Keys;
      while left != {}
        invariant left <= registerRules.Keys && forall name :: name in order <==> name in registerRules && name !in left
        invariant InNameOrder(order) && AllLess(order, left)
        invariant text == Rendered(Value(), order)
        decreases |left|
      {
        LeastOf(left);
        var name :| name in left && IsLeast(name, left);
        LeastNext(order, name, left);
        if text != "" {
          text := text + " ";
        }
        text := text + (name + ": " + registerRules[name]);
        left := left - {name};
        assert (order + [name])[..|order|] == order;
        order := order + [name];
      }
    }
  }

  class CFIFrameInfoParseHandler {
    const frameInfo: CFIFrameInfo

    constructor (frameInfo: CFIFrameInfo)
      ensures this.frameInfo == frameInfo
    {
      this.frameInfo := frameInfo;
    }

    method CFARule(expression: string)
      modifies frameInfo
      ensures frameInfo.Value() == old(frameInfo.Value()).With(Rule(CFA, expression))
    {
      frameInfo.SetCFARule(expression);
    }

    method RARule(expression: string)
      modifies frameInfo
      ensures frameInfo.Value() == old(frameInfo.Value()).With(Rule(RA, expression))
    {
      frameInfo.SetRARule(expression);
    }

    method RegisterRule(name: string, expression: string)
      requires name != CFA && name != RA
      modifies frameInfo
      ensures frameInfo.Value() == old(frameInfo.Value()).With(Rule(name, expression))
    {
      frameInfo.SetRegisterRule(name, expression);
    }
  }

  /** What is still to come, with this name and this much of an expression at hand. */
  function Resume(name: string, sofar: seq<string>, tokens: seq<string>): Reading {
    if name != "" then Pending(name, sofar, tokens)
    else if sofar == [] then Read(tokens)
    else Reading(false, [])
  }

  lemma WordAt(text: string, start: nat, next: nat)
    requires start <= next <= |text| && forall i :: start <= i < next ==> !IsBreak(text[i])
    requires start < |text| ==> !IsBreak(text[start])
    requires next < |text| ==> IsBreak(text[next])
    ensures if start == next then Words(text[start..]) == []
            else IsWord(text[start..next]) && Words(text[start..]) == [text[start..next]] + Words(text[next..])
  {
    if start < next {
      WordFirst(text[start..next], text[next..]);
      assert text[start..next] + text[next..] == text[start..];
    }
  }

  class CFIRuleParser {
    const handler: CFIFrameInfoParseHandler
    var name: string
    var expression: string

    constructor (handler: CFIFrameInfoParseHandler)
      ensures this.handler == handler
    {
      this.handler, name, expression := handler, "", "";
    }

    /** The next token from here on, as strtok_r finds it. */
    static method NextToken(text: string, from: nat) returns (token: string, next: nat)
      requires from <= |text|
      ensures from <= next <= |text|
      ensures if token == "" then Words(text[from..]) == []
              else IsWord(token) && from < next && Words(text[from..]) == [token] + Words(text[next..])
    {
      var start := from;
      while start < |text| && IsBreak(text[start])
        invariant from <= start <= |text|
        invariant Words(text[from..]) == Words(text[start..])
      {
        assert text[start..][1..] == text[start + 1..];
        start := start + 1;
      }
      next := start;
      while next < |text| && !IsBreak(text[next])
        invariant start <= next <= |text|
        invariant forall i :: start <= i < next ==> !IsBreak(text[i])
      {
        next := next + 1;
      }
      token := text[start..next];
      WordAt(text, start, next);
    }

    /** Report the accumulated rule, if it is one. */
    method Report() returns (ok: bool)
      modifies handler.frameInfo
      ensures ok == (name != "" && expression != "")
      ensures handler.frameInfo.Value() ==
              if ok then old(handler.frameInfo.Value()).With(Rule(name, expression)) else old(handler.frameInfo.Value())
    {
      if name == "" || expression == "" {
        return false;
      }
      if name == CFA {
        handler.CFARule(expression);
      } else if name == RA {
        handler.RARule(expression);
      } else {
        handler.RegisterRule(name, expression);
      }
      return true;
    }

    /** One token more. */
    method Take(token: string, ghost sofar: seq<string>, ghost rest: seq<string>)
        returns (ok: bool, ghost after: seq<string>)
      requires IsWord(token) && AllWords(sofar) && expression == Join(sofar)
      modifies this, handler.frameInfo
      ensures ok ==> AllWords(after) && expression == Join(after)
      ensures var was := Resume(old(name), sofar, [token] + rest);
              if ok then
                var now := Resume(name, after, rest);
                && was.ok == now.ok
                && old(handler.frameInfo.Value()).WithAll(was.rules) == handler.frameInfo.Value().WithAll(now.rules)
              else was == Reading(false, []) && handler.frameInfo.Value() == old(handler.frameInfo.Value())
    {
      assert ([token] + rest)[1..] == rest;
      if sofar != [] {
        JoinNotEmpty(sofar);
      }
      after := [];
      if IsName(token) {
        TakesName(name, sofar, token, rest);
        if |token| < 2 {
          return false, after;
        }
        if name != "" || expression != "" {
          var reported := Report();
          if !reported {
            return false, after;
          }
        }
        name := token[..|token| - 1];
        expression := "";
      } else {
        TakesExpression(name, sofar, token, rest);
        if expression != "" {
          JoinConcat(sofar, [token]);
          expression := expression + " ";
        }
        expression := expression + token;
        after := sofar + [token];
      }
      return true, after;
    }

    /** Parse a rule set, reporting its rules as they are completed. */
    method Parse(ruleSet: string) returns (ok: bool)
      modifies this, handler.frameInfo
      ensures var reading := Read(Words(ruleSet));
              ok == reading.ok && handler.frameInfo.Value() == old(handler.frameInfo.Value()).WithAll(reading.rules)
    {
      name, expression := "", "";
      ghost var whole, sofar: seq<string> := Read(Words(ruleSet)), [];
      var token: string, cursor: nat;
      assert ruleSet[0..] == ruleSet;
      token, cursor := NextToken(ruleSet, 0);
      ghost var tokens := Words(ruleSet);
      while token != ""
        invariant cursor <= |ruleSet| && AllWords(sofar) && expression == Join(sofar)
        invariant if token == "" then tokens == [] else IsWord(token) && tokens == [token] + Words(ruleSet[cursor..])
        invariant whole.ok == Resume(name, sofar, tokens).ok
        invariant old(handler.frameInfo.Value()).WithAll(whole.rules) ==
                  handler.frameInfo.Value().WithAll(Resume(name, sofar, tokens).rules)
        decreases |tokens|
      {
        tokens := Words(ruleSet[cursor..]);
        ok, sofar := Take(token, sofar, tokens);
        if !ok {
          return;
        }
        token, cursor := NextToken(ruleSet, cursor);
      }
      if sofar != [] {
        JoinNotEmpty(sofar);
      }
      TakesEnd(name, sofar);
      ok := Report();
    }
  }

  lemma TakesName(name: string, sofar: seq<string>, token: string, rest: seq<string>)
    requires IsName(token) && token != ""
    ensures var was := Resume(name, sofar, [token] + rest);
            if |token| < 2 || (name == "") != (sofar == []) then was == Reading(false, [])
            else
              var next := Resume(token[..|token| - 1], [], rest);
              was == if name == "" then next else Reading(next.ok, [Rule(name, Join(sofar))] + next.rules)
  {
    var tokens := [token] + rest;
    assert tokens[1..] == rest && tokens[..0] == [] && tokens[0..] == tokens;
    assert Read(tokens) == if |token| < 2 then Reading(false, []) else Pending(token[..|token| - 1], [], rest);
    assert sofar + [] == sofar;
  }

  lemma TakesExpression(name: string, sofar: seq<string>, token: string, rest: seq<string>)
    requires !IsName(token) && token != ""
    ensures Resume(name, sofar, [token] + rest) == Resume(name, sofar + [token], rest)
  {
    var tokens := [token] + rest;
    var n := ExpressionLength(rest);
    assert tokens[1..] == rest;
    assert tokens[..n + 1] == [token] + rest[..n] && tokens[n + 1..] == rest[n..];
    assert sofar + tokens[..n + 1] == (sofar + [token]) + rest[..n];
  }

  lemma TakesEnd(name: string, sofar: seq<string>)
    ensures Resume(name, sofar, []) ==
            if name != "" && sofar != [] then Reading(true, [Rule(name, Join(sofar))]) else Reading(false, [])
  {
    assert sofar + [] == sofar;
  }

  /** Character by character, as strings compare. */
  predicate Less(a: string, b: string) {
    b != "" && (a == "" || a[0] < b[0] || (a[0] == b[0] && Less(a[1..], b[1..])))
  }

  lemma {:induction false} LessTotal(a: string, b: string)
    ensures Less(a, b) || Less(b, a) || a == b
    ensures !(Less(a, b) && Less(b, a))
  {
    if a != "" && b != "" && a[0] == b[0] {
      LessTotal(a[1..], b[1..]);
      assert a == [a[0]] + a[1..] && b == [b[0]] + b[1..];
    }
  }

  lemma {:induction false} LessTransitive(a: string, b: string, c: string)
    requires Less(a, b) && Less(b, c)
    ensures Less(a, c)
  {
    if a != "" && a[0] == b[0] == c[0] {
      LessTransitive(a[1..], b[1..], c[1..]);
    }
  }

  /** Up to here the two are the same, and here the first is smaller or at its end. */
  predicate SmallerAt(a: string, b: string, i: nat) {
    i <= |a| && i < |b| && a[..i] == b[..i] && (i == |a| || a[i] < b[i])
  }

  lemma {:induction false} LessIff(a: string, b: string)
    ensures Less(a, b) <==> exists i: nat :: SmallerAt(a, b, i)
  {
    forall i: nat {
      SameFirst(a, b, i);
    }
    if a != "" && b != "" && a[0] == b[0] {
      LessIff(a[1..], b[1..]);
      if i: nat :| SmallerAt(a[1..], b[1..], i) {
        assert a[..i + 1] == [a[0]] + a[1..][..i] && b[..i + 1] == [b[0]] + b[1..][..i];
        assert SmallerAt(a, b, i + 1);
      }
      if i: nat :| SmallerAt(a, b, i) {
        assert i > 0 && a[1..][..i - 1] == a[..i][1..] && b[1..][..i - 1] == b[..i][1..];
        assert SmallerAt(a[1..], b[1..], i - 1);
      }
    } else if b != "" && (a == "" || a[0] < b[0]) {
      assert SmallerAt(a, b, 0);
    }
  }

  lemma SameFirst(a: string, b: string, i: nat)
    ensures SmallerAt(a, b, i) && i > 0 ==> a != "" && b != "" && a[0] == b[0]
  {
    if SmallerAt(a, b, i) && i > 0 {
      assert a[..i][0] == a[0] && b[..i][0] == b[0];
    }
  }

  predicate IsLeast(name: string, names: set<string>) {
    forall other | other in names :: other == name || Less(name, other)
  }

  ghost predicate AllLess(order: seq<string>, left: set<string>) {
    forall i, name | 0 <= i < |order| && name in left :: Less(order[i], name)
  }

  lemma LeastNext(order: seq<string>, name: string, left: set<string>)
    requires InNameOrder(order) && AllLess(order, left) && name in left && IsLeast(name, left)
    ensures InNameOrder(order + [name]) && AllLess(order + [name], left - {name})
  {
  }

  lemma {:induction false} LeastOf(names: set<string>)
    requires names != {}
    ensures exists name :: name in names && IsLeast(name, names)
    decreases |names|
  {
    var some :| some in names;
    if names == {some} {
      assert IsLeast(some, names);
    } else {
      var rest := names - {some};
      LeastOf(rest);
      var least :| least in rest && IsLeast(least, rest);
      LessTotal(some, least);
      if Less(some, least) {
        forall other | other in rest && other != least
          ensures Less(some, other)
        {
          LessTransitive(some, least, other);
        }
        assert IsLeast(some, names);
      } else {
        assert IsLeast(least, names);
      }
    }
  }

  /** These are the registers, and no other names. */
  ghost predicate Lists(order: seq<string>, registers: map<string, string>) {
    forall name :: name in order <==> name in registers
  }

  ghost predicate InNameOrder(order: seq<string>) {
    forall i, j | 0 <= i < j < |order| :: Less(order[i], order[j])
  }

  /** There is only one such order, so that the rules determine the text. */
  lemma {:induction false} OneOrder(a: seq<string>, b: seq<string>)
    requires InNameOrder(a) && InNameOrder(b) && forall name :: name in a <==> name in b
    ensures a == b
    decreases |a|
  {
    HasFirst(a);
    HasFirst(b);
    if a != [] {
      var x, y := a[|a| - 1], b[|b| - 1];
      LastIsGreatest(a, y);
      LastIsGreatest(b, x);
      LessTotal(x, y);
      var front, other := a[..|a| - 1], b[..|b| - 1];
      forall name
        ensures name in front <==> name in other
      {
        InFront(a, name);
        InFront(b, name);
      }
      OneOrder(front, other);
      assert a == a[..|a| - 1] + [x] && b == b[..|b| - 1] + [y];
    }
  }

  lemma HasFirst<T>(s: seq<T>)
    ensures s != [] ==> s[0] in s
  {
  }

  lemma LastIsGreatest(order: seq<string>, name: string)
    requires InNameOrder(order) && name in order
    ensures name == order[|order| - 1] || Less(name, order[|order| - 1])
  {
  }

  lemma InFront(order: seq<string>, name: string)
    requires InNameOrder(order) && order != []
    ensures name in order[..|order| - 1] <==> name in order && name != order[|order| - 1]
  {
    var last := order[|order| - 1];
    assert order == order[..|order| - 1] + [last];
    LessTotal(last, last);
  }

  function Spaced(a: string, b: string): string {
    if a == "" then b else a + " " + b
  }

  /** The text of a rule set, registers in this order. */
  ghost function Rendered(rules: RuleSet, order: seq<string>): string
    requires forall name :: name in order ==> name in rules.registers
  {
    if order == [] then
      var cfa := if rules.cfa == "" then "" else ".cfa: " + rules.cfa;
      if rules.ra == "" then cfa else Spaced(cfa, ".ra: " + rules.ra)
    else
      var last := order[|order| - 1];
      Spaced(Rendered(rules, order[..|order| - 1]), last + ": " + rules.registers[last])
  }
}
