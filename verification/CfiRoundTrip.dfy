/** Printing a rule set and parsing what was printed. */
module CfiRoundTrip {
  import opened CfiText
  import opened CfiRules

  /** Without space, tab, carriage return and line feed. */
  predicate Unbroken(w: string) {
    w != "" && forall i :: 0 <= i < |w| ==> w[i] != ' ' && w[i] != '\t' && w[i] != '\r' && w[i] != '\n'
  }

  predicate Operand(w: string) {
    Unbroken(w) && w[|w| - 1] != ':'
  }

  ghost predicate Spells(e: string, words: seq<string>) {
    words != [] && e == Join(words) && forall i :: 0 <= i < |words| ==> Operand(words[i])
  }

  /** Single-spaced tokens, none of them ending in a colon. */
  ghost predicate IsExpression(e: string) {
    exists words: seq<string> :: Spells(e, words)
  }

  ghost predicate IsRule(r: Rule) {
    Unbroken(r.name) && IsExpression(r.expression)
  }

  lemma UnbrokenIsWord(w: string)
    ensures Unbroken(w) <==> IsWord(w)
  {
  }

  lemma ExpressionWords(e: string)
    requires IsExpression(e)
    ensures Words(e) != [] && Join(Words(e)) == e && forall i :: 0 <= i < |Words(e)| ==> !IsName(Words(e)[i])
  {
    var words: seq<string> :| Spells(e, words);
    forall i | 0 <= i < |words|
      ensures IsWord(words[i]) && !IsName(words[i])
    {
      assert Operand(words[i]);
      UnbrokenIsWord(words[i]);
    }
    SplitJoin(words);
  }

  ghost predicate Printable(rules: RuleSet) {
    && (rules.cfa == "" || IsExpression(rules.cfa))
    && (rules.ra == "" || IsExpression(rules.ra))
    && forall name :: name in rules.registers ==>
         IsRule(Rule(name, rules.registers[name])) && name != ".cfa" && name != ".ra"
  }

  /** The rules in the order they are printed. */
  ghost function RulesOf(rules: RuleSet, order: seq<string>): seq<Rule>
    requires forall name :: name in order ==> name in rules.registers
  {
    if order == [] then
      (if rules.cfa == "" then [] else [Rule(CFA, rules.cfa)]) + (if rules.ra == "" then [] else [Rule(RA, rules.ra)])
    else
      var last := order[|order| - 1];
      RulesOf(rules, order[..|order| - 1]) + [Rule(last, rules.registers[last])]
  }

  function TokensOf(r: Rule): seq<string> {
    [r.name + ":"] + Words(r.expression)
  }

  function AllTokens(rules: seq<Rule>): seq<string> {
    if rules == [] then [] else TokensOf(rules[0]) + AllTokens(rules[1..])
  }

  ghost predicate AllRules(rules: seq<Rule>) {
    forall i :: 0 <= i < |rules| ==> IsRule(rules[i])
  }

  // ------------------------------------------------------ reading the tokens

  lemma {:induction false} LengthOf(words: seq<string>, rest: seq<string>)
    requires forall i :: 0 <= i < |words| ==> !IsName(words[i])
    requires rest == [] || IsName(rest[0])
    ensures ExpressionLength(words + rest) == |words|
  {
    if words == [] {
      assert words + rest == rest;
    } else {
      assert (words + rest)[1..] == words[1..] + rest;
      LengthOf(words[1..], rest);
    }
  }

  /** What comes behind the first rule begins with a name. */
  lemma RestTokens(rules: seq<Rule>)
    requires |rules| > 1 && AllRules(rules)
    ensures AllRules(rules[1..])
    ensures var rest := AllTokens(rules[1..]); rest != [] && IsName(rest[0]) && |rest[0]| >= 2
  {
    assert IsRule(rules[1]) && rules[1..][1..] == rules[2..];
    BeginsWithName(rules[1], rules[2..]);
  }

  /** Reading undoes the division into tokens. */
  lemma {:induction false} ReadTokens(rules: seq<Rule>)
    requires rules != [] && AllRules(rules)
    ensures Read(AllTokens(rules)) == Reading(true, rules)
  {
    if |rules| > 1 {
      RestTokens(rules);
      ReadTokens(rules[1..]);
    } else {
      assert AllTokens(rules[1..]) == [];
    }
    assert IsRule(rules[0]) && rules == [rules[0]] + rules[1..];
    ReadRule(rules[0], AllTokens(rules[1..]));
  }

  lemma BeginsWithName(r: Rule, more: seq<Rule>)
    requires IsRule(r)
    ensures var tokens := TokensOf(r) + AllTokens(more); IsName(tokens[0]) && |tokens[0]| >= 2
  {
    Unnamed(r.name);
  }

  lemma ReadRule(r: Rule, rest: seq<string>)
    requires IsRule(r) && (rest != [] ==> IsName(rest[0]) && |rest[0]| >= 2)
    ensures Read(TokensOf(r) + rest) ==
            if rest == [] then Reading(true, [r]) else Reading(Read(rest).ok, [r] + Read(rest).rules)
  {
    ExpressionWords(r.expression);
    LengthOf(Words(r.expression), rest);
    ReadFirst(r.name, Words(r.expression), rest);
  }

  lemma ReadFirst(name: string, words: seq<string>, rest: seq<string>)
    requires name != "" && words != [] && ExpressionLength(words + rest) == |words|
    requires rest != [] ==> IsName(rest[0]) && |rest[0]| >= 2
    ensures var rule := Rule(name, Join(words));
            Read(([name + ":"] + words) + rest) ==
            if rest == [] then Reading(true, [rule]) else Reading(Read(rest).ok, [rule] + Read(rest).rules)
  {
    assert ([name + ":"] + words) + rest == [name + ":"] + (words + rest);
    ReadIsPending(name, words + rest);
    PendingFirst(name, words, rest);
  }

  lemma ReadIsPending(name: string, tail: seq<string>)
    requires name != ""
    ensures Read([name + ":"] + tail) == Pending(name, [], tail)
  {
    Unnamed(name);
    assert ([name + ":"] + tail)[1..] == tail;
  }

  lemma Unnamed(name: string)
    requires name != ""
    ensures IsName(name + ":") && |name + ":"| >= 2 && (name + ":")[..|name + ":"| - 1] == name
  {
  }

  lemma PendingFirst(name: string, words: seq<string>, rest: seq<string>)
    requires words != [] && ExpressionLength(words + rest) == |words|
    requires rest != [] ==> IsName(rest[0]) && |rest[0]| >= 2
    ensures var rule := Rule(name, Join(words));
            Pending(name, [], words + rest) ==
            if rest == [] then Reading(true, [rule]) else Reading(Read(rest).ok, [rule] + Read(rest).rules)
  {
    assert (words + rest)[..|words|] == words && (words + rest)[|words|..] == rest;
    assert [] + words == words;
  }

  // ---------------------------------------------------------- the printed text

  lemma RenderedRule(r: Rule)
    requires IsRule(r)
    ensures r.name + ": " + r.expression == Join(TokensOf(r))
    ensures AllWords(TokensOf(r))
  {
    var words := Words(r.expression);
    UnbrokenIsWord(r.name);
    ExpressionWords(r.expression);
    WordsAreWords(r.expression);
    JoinConcat([r.name + ":"], words);
    assert r.name + ": " + r.expression == (r.name + ":") + " " + r.expression;
    assert forall i :: 0 <= i < |r.name + ":"| ==> !IsBreak((r.name + ":")[i]);
  }

  lemma {:induction false} AllTokensConcat(a: seq<Rule>, b: seq<Rule>)
    ensures AllTokens(a + b) == AllTokens(a) + AllTokens(b)
  {
    if a == [] {
      assert a + b == b;
    } else {
      assert (a + b)[1..] == a[1..] + b;
      AllTokensConcat(a[1..], b);
    }
  }

  /** One rule more: one more piece of text. */
  lemma RenderedNext(text: string, rules: seq<Rule>, r: Rule)
    requires text == Join(AllTokens(rules)) && AllWords(AllTokens(rules)) && IsRule(r)
    ensures Spaced(text, r.name + ": " + r.expression) == Join(AllTokens(rules + [r]))
    ensures AllWords(AllTokens(rules + [r]))
  {
    RenderedRule(r);
    AllTokensConcat(rules, [r]);
    assert AllTokens([r]) == TokensOf(r) + [] == TokensOf(r);
    assert AllTokens(rules + [r]) == AllTokens(rules) + TokensOf(r);
    if AllTokens(rules) == [] {
      assert AllTokens(rules + [r]) == TokensOf(r);
    } else {
      JoinNotEmpty(AllTokens(rules));
      JoinConcat(AllTokens(rules), TokensOf(r));
    }
  }

  lemma {:induction false} RenderedTokens(rules: RuleSet, order: seq<string>)
    requires Printable(rules) && forall name :: name in order ==> name in rules.registers
    ensures Rendered(rules, order) == Join(AllTokens(RulesOf(rules, order)))
    ensures AllWords(AllTokens(RulesOf(rules, order))) && AllRules(RulesOf(rules, order))
    decreases |order|
  {
    if order == [] {
      RenderedFirst(rules);
    } else {
      var last := order[|order| - 1];
      var r := Rule(last, rules.registers[last]);
      assert IsRule(r);
      RenderedTokens(rules, order[..|order| - 1]);
      RenderedNext(Rendered(rules, order[..|order| - 1]), RulesOf(rules, order[..|order| - 1]), r);
    }
  }

  ghost function CfaRules(rules: RuleSet): seq<Rule> {
    if rules.cfa == "" then [] else [Rule(CFA, rules.cfa)]
  }

  lemma RaLabel(expression: string)
    ensures RA + ": " + expression == ".ra: " + expression
  {
  }

  function CfaText(rules: RuleSet): string {
    if rules.cfa == "" then "" else ".cfa: " + rules.cfa
  }

  lemma RenderedCfa(rules: RuleSet)
    requires Printable(rules)
    ensures CfaText(rules) == Join(AllTokens(CfaRules(rules)))
    ensures AllWords(AllTokens(CfaRules(rules))) && AllRules(CfaRules(rules))
  {
    if rules.cfa != "" {
      RenderedNext("", [], Rule(CFA, rules.cfa));
      assert [] + CfaRules(rules) == CfaRules(rules);
      assert CFA + ": " + rules.cfa == ".cfa: " + rules.cfa;
    }
  }

  lemma RenderedBoth(rules: RuleSet)
    requires rules.ra != ""
    ensures Rendered(rules, []) == Spaced(CfaText(rules), RA + ": " + rules.ra)
  {
    RaLabel(rules.ra);
  }

  lemma RenderedRa(rules: RuleSet)
    requires Printable(rules) && rules.ra != ""
    ensures Rendered(rules, []) == Join(AllTokens(CfaRules(rules) + [Rule(RA, rules.ra)]))
    ensures AllWords(AllTokens(CfaRules(rules) + [Rule(RA, rules.ra)]))
  {
    RenderedCfa(rules);
    RenderedBoth(rules);
    RenderedNext(CfaText(rules), CfaRules(rules), Rule(RA, rules.ra));
  }

  lemma RenderedFirst(rules: RuleSet)
    requires Printable(rules)
    ensures Rendered(rules, []) == Join(AllTokens(RulesOf(rules, [])))
    ensures AllWords(AllTokens(RulesOf(rules, []))) && AllRules(RulesOf(rules, []))
  {
    RenderedCfa(rules);
    if rules.ra != "" {
      RenderedRa(rules);
      assert RulesOf(rules, []) == CfaRules(rules) + [Rule(RA, rules.ra)];
    } else {
      assert RulesOf(rules, []) == CfaRules(rules);
    }
  }

  // ------------------------------------------------------- applying the rules

  lemma {:induction false} WithAllConcat(rules: RuleSet, a: seq<Rule>, b: seq<Rule>)
    ensures rules.WithAll(a + b) == rules.WithAll(a).WithAll(b)
    decreases |a|
  {
    if a == [] {
      assert a + b == b;
    } else {
      assert (a + b)[1..] == a[1..] + b;
      WithAllConcat(rules.With(a[0]), a[1..], b);
    }
  }

  ghost function Restricted(registers: map<string, string>, order: seq<string>): map<string, string> {
    map name | name in registers && name in order :: registers[name]
  }

  lemma AppliedFirst(rules: RuleSet)
    ensures EMPTY.WithAll(RulesOf(rules, [])) == rules.(registers := map[])
  {
    var ra: seq<Rule> := if rules.ra == "" then [] else [Rule(RA, rules.ra)];
    assert RulesOf(rules, []) == CfaRules(rules) + ra;
    WithAllConcat(EMPTY, CfaRules(rules), ra);
    assert CfaRules(rules) != [] ==> CfaRules(rules)[1..] == [];
    assert ra != [] ==> ra[1..] == [];
  }

  lemma {:induction false} Applied(rules: RuleSet, order: seq<string>)
    requires Printable(rules) && forall name :: name in order ==> name in rules.registers
    ensures EMPTY.WithAll(RulesOf(rules, order)) == rules.(registers := Restricted(rules.registers, order))
    decreases |order|
  {
    if order == [] {
      AppliedFirst(rules);
      assert Restricted(rules.registers, order) == map[];
    } else {
      var front, last := order[..|order| - 1], order[|order| - 1];
      Applied(rules, front);
      AppliedNext(rules.(registers := Restricted(rules.registers, front)), RulesOf(rules, front),
                  Rule(last, rules.registers[last]));
      RestrictedNext(rules.registers, order);
    }
  }

  lemma RestrictedNext(registers: map<string, string>, order: seq<string>)
    requires order != [] && order[|order| - 1] in registers
    ensures var last := order[|order| - 1];
            Restricted(registers, order) == Restricted(registers, order[..|order| - 1])[last := registers[last]]
  {
    assert order == order[..|order| - 1] + [order[|order| - 1]];
  }

  lemma AppliedNext(sofar: RuleSet, rules: seq<Rule>, r: Rule)
    requires EMPTY.WithAll(rules) == sofar && r.name != CFA && r.name != RA
    ensures EMPTY.WithAll(rules + [r]) == sofar.(registers := sofar.registers[r.name := r.expression])
  {
    WithAllConcat(EMPTY, rules, [r]);
    assert [r][1..] == [];
  }

  /** Parsing what Serialize prints, into no rules, gives back the rules, whatever order
      the registers are printed in. */
  lemma RoundTrip(rules: RuleSet, order: seq<string>)
    requires Printable(rules) && Lists(order, rules.registers) && rules != EMPTY
    ensures var reading := Read(Words(Rendered(rules, order)));
            reading.ok && EMPTY.WithAll(reading.rules) == rules
  {
    RenderedTokens(rules, order);
    SplitJoin(AllTokens(RulesOf(rules, order)));
    Applied(rules, order);
    assert Restricted(rules.registers, order) == rules.registers;
    assert RulesOf(rules, order) != [];
    ReadTokens(RulesOf(rules, order));
  }

  /** No rules at all print as a text that does not parse. */
  lemma NothingToParse()
    ensures Rendered(EMPTY, []) == "" && !Read(Words(Rendered(EMPTY, []))).ok
  {
  }
}
