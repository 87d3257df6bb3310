/** What a text of rules says, in terms of its characters: its words, when they are rules, and which. */
module CfiMeaning {
  import opened CfiText
  import opened CfiRules
  import opened CfiRoundTrip

  // ------------------------------------------------------------------- words

  predicate Blank(s: string, i: nat)
    requires i < |s|
  {
    s[i] == ' ' || s[i] == '\t' || s[i] == '\r' || s[i] == '\n'
  }

  predicate Ink(s: string, i: nat) {
    i < |s| && !Blank(s, i)
  }

  /** A maximal stretch without blanks. */
  ghost predicate Stretch(s: string, a: nat, b: nat) {
    && a < b <= |s| && (forall i: nat | a <= i < b :: Ink(s, i))
    && (a == 0 || Blank(s, a - 1)) && (b == |s| || Blank(s, b))
  }

  datatype Piece = Piece(from: nat, to: nat)

  ghost predicate PieceOf(s: string, p: Piece, word: string) {
    Stretch(s, p.from, p.to) && word == s[p.from..p.to]
  }

  ghost predicate InLine(pieces: seq<Piece>, i: nat, j: nat)
    requires i < |pieces| && j < |pieces|
  {
    pieces[i].to < pieces[j].from
  }

  ghost predicate PieceAt(s: string, from: nat, pieces: seq<Piece>, words: seq<string>, k: nat)
    requires k < |pieces| && |pieces| == |words|
  {
    from <= pieces[k].from && PieceOf(s, pieces[k], words[k])
  }

  ghost predicate Listed(s: string, from: nat, pieces: seq<Piece>, a: nat, b: nat) {
    from <= a && Stretch(s, a, b) ==> Piece(a, b) in pieces
  }

  /** The words are the stretches from here on, in their order, each of them once. */
  ghost predicate Divides(s: string, from: nat, pieces: seq<Piece>, words: seq<string>) {
    && |pieces| == |words|
    && (forall k: nat | k < |pieces| :: PieceAt(s, from, pieces, words, k))
    && (forall i: nat, j: nat | i < j < |pieces| :: InLine(pieces, i, j))
    && (forall a: nat, b: nat :: Listed(s, from, pieces, a, b))
  }

  ghost predicate AtBoundary(s: string, from: nat) {
    from <= |s| && (from == 0 || from == |s| || Blank(s, from) || Blank(s, from - 1))
  }

  lemma {:induction false} WordsFrom(s: string, from: nat) returns (pieces: seq<Piece>)
    requires from <= |s| && AtBoundary(s, from)
    ensures Divides(s, from, pieces, Words(s[from..]))
    decreases |s| - from
  {
    if from == |s| {
      pieces := [];
    } else if Blank(s, from) {
      pieces := WordsFrom(s, from + 1);
      assert s[from..][1..] == s[from + 1..];
      SkipBlank(s, from, pieces, Words(s[from + 1..]));
    } else {
      var n := WordLength(s[from..]);
      StretchHere(s, from, n);
      var rest := WordsFrom(s, from + n);
      FirstWord(s, from, n);
      pieces := [Piece(from, from + n)] + rest;
      OnePieceMore(s, from, n, rest, Words(s[from + n..]));
    }
  }

  lemma SkipBlank(s: string, from: nat, pieces: seq<Piece>, words: seq<string>)
    requires from < |s| && Blank(s, from) && Divides(s, from + 1, pieces, words)
    ensures Divides(s, from, pieces, words)
  {
    forall k: nat | k < |pieces|
      ensures PieceAt(s, from, pieces, words, k)
    {
      assert PieceAt(s, from + 1, pieces, words, k);
    }
    forall a: nat, b: nat
      ensures Listed(s, from, pieces, a, b)
    {
      assert Listed(s, from + 1, pieces, a, b);
      if Stretch(s, a, b) {
        InkInside(s, a, b, a);
      }
    }
  }

  lemma FirstWord(s: string, from: nat, n: nat)
    requires from < |s| && !Blank(s, from) && n == WordLength(s[from..]) && from + n <= |s|
    ensures Words(s[from..]) == [s[from..from + n]] + Words(s[from + n..])
  {
    assert s[from..][n..] == s[from + n..] && s[from..][..n] == s[from..from + n];
  }

  lemma StretchHere(s: string, from: nat, n: nat)
    requires from < |s| && !Blank(s, from) && AtBoundary(s, from) && n == WordLength(s[from..])
    ensures 0 < n && from + n <= |s| && Stretch(s, from, from + n) && AtBoundary(s, from + n)
  {
    forall i: nat | from <= i < from + n
      ensures Ink(s, i)
    {
      assert s[from..][i - from] == s[i];
    }
    assert from + n < |s| ==> s[from..][n] == s[from + n];
  }

  lemma OnePieceMore(s: string, from: nat, n: nat, rest: seq<Piece>, words: seq<string>)
    requires 0 < n && from + n <= |s| && Stretch(s, from, from + n) && Divides(s, from + n, rest, words)
    ensures Divides(s, from, [Piece(from, from + n)] + rest, [s[from..from + n]] + words)
  {
    var pieces := [Piece(from, from + n)] + rest;
    var all := [s[from..from + n]] + words;
    OnePieceAhead(s, from, n, rest, words);
    forall k: nat | k < |pieces|
      ensures PieceAt(s, from, pieces, all, k)
    {
      assert k > 0 ==> PieceAt(s, from + n, rest, words, k - 1);
    }
    forall a: nat, b: nat
      ensures Listed(s, from, pieces, a, b)
    {
      if from <= a && Stretch(s, a, b) {
        AmongPieces(s, from, n, rest, words, a, b);
      }
    }
  }

  lemma OnePieceAhead(s: string, from: nat, n: nat, rest: seq<Piece>, words: seq<string>)
    requires 0 < n && from + n <= |s| && Stretch(s, from, from + n) && Divides(s, from + n, rest, words)
    ensures var pieces := [Piece(from, from + n)] + rest;
            forall i: nat, j: nat | i < j < |pieces| :: InLine(pieces, i, j)
  {
    var pieces := [Piece(from, from + n)] + rest;
    forall i: nat, j: nat | i < j < |pieces|
      ensures InLine(pieces, i, j)
    {
      if i > 0 {
        assert InLine(rest, i - 1, j - 1);
      } else {
        assert PieceAt(s, from + n, rest, words, j - 1) && Ink(s, rest[j - 1].from);
        NotAdjacent(s, from, from + n, rest[j - 1].from);
      }
    }
  }

  lemma AmongPieces(s: string, from: nat, n: nat, rest: seq<Piece>, words: seq<string>, a: nat, b: nat)
    requires 0 < n && from + n <= |s| && Stretch(s, from, from + n) && Divides(s, from + n, rest, words)
    requires from <= a && Stretch(s, a, b)
    ensures Piece(a, b) in [Piece(from, from + n)] + rest
  {
    if a < from + n {
      SameStretch(s, from, from + n, a, b);
    } else {
      assert Listed(s, from + n, rest, a, b);
    }
  }

  lemma NotAdjacent(s: string, a: nat, b: nat, c: nat)
    requires Stretch(s, a, b) && b <= c < |s| && !Blank(s, c)
    ensures b < c
  {
  }

  lemma InkInside(s: string, a: nat, b: nat, i: int)
    requires Stretch(s, a, b)
    ensures a <= i < b ==> Ink(s, i)
  {
  }

  lemma SameStretch(s: string, a: nat, b: nat, c: nat, d: nat)
    requires Stretch(s, a, b) && Stretch(s, c, d) && a <= c < b
    ensures a == c && b == d
  {
    InkInside(s, a, b, c - 1);
    InkInside(s, c, d, b);
    InkInside(s, a, b, d);
  }

  /** The words of a text are its maximal stretches without space, tab, carriage return and
      line feed, in their order. */
  lemma WordsAreStretches(s: string)
    ensures exists pieces :: Divides(s, 0, pieces, Words(s))
  {
    var pieces := WordsFrom(s, 0);
    assert s[0..] == s;
  }

  // ------------------------------------------------------------------- rules

  predicate EndsInColon(tokens: seq<string>, k: nat)
    requires k < |tokens|
  {
    tokens[k] != "" && tokens[k][|tokens[k]| - 1] == ':'
  }

  /** Something is in front of the colon, and something other than a name behind it. */
  predicate NamesRule(tokens: seq<string>, k: nat)
    requires k < |tokens|
  {
    |tokens[k]| >= 2 && k + 1 < |tokens| && !EndsInColon(tokens, k + 1)
  }

  /** The tokens from here on are rules. */
  ghost predicate AreRules(tokens: seq<string>, from: nat) {
    && from < |tokens| && EndsInColon(tokens, from)
    && forall k: nat | from <= k < |tokens| && EndsInColon(tokens, k) :: NamesRule(tokens, k)
  }

  /** The next token behind this one that ends in a colon, or the end. */
  function NextName(tokens: seq<string>, k: nat): (n: nat)
    requires k <= |tokens|
    ensures k <= n <= |tokens| && (n < |tokens| ==> EndsInColon(tokens, n))
    ensures forall i: nat | k <= i < n :: !EndsInColon(tokens, i)
    decreases |tokens| - k
  {
    if k == |tokens| || EndsInColon(tokens, k) then k else NextName(tokens, k + 1)
  }

  /** Each name with what follows it, single-spaced. */
  function RulesIn(tokens: seq<string>, k: nat): seq<Rule>
    requires k <= |tokens|
    decreases |tokens| - k
  {
    if k == |tokens| then []
    else
      var n := NextName(tokens, k + 1);
      [Rule(if tokens[k] == "" then "" else tokens[k][..|tokens[k]| - 1], Join(tokens[k + 1..n]))] + RulesIn(tokens, n)
  }

  lemma {:induction false} ExpressionEnds(tokens: seq<string>, k: nat)
    requires k <= |tokens|
    ensures ExpressionLength(tokens[k..]) == NextName(tokens, k) - k
    decreases |tokens| - k
  {
    if k < |tokens| && !EndsInColon(tokens, k) {
      ExpressionEnds(tokens, k + 1);
      assert tokens[k..][1..] == tokens[k + 1..];
    }
  }

  /** One rule, and what comes behind it. */
  lemma ReadOne(token: string, expression: seq<string>, rest: seq<string>)
    requires ExpressionLength(expression + rest) == |expression|
    ensures Read([token] + (expression + rest)) ==
            if !IsName(token) || |token| < 2 || expression == [] then Reading(false, [])
            else
              var rule := Rule(token[..|token| - 1], Join(expression));
              if rest == [] then Reading(true, [rule])
              else if |rest[0]| < 2 then Reading(false, [])
              else Reading(Read(rest).ok, [rule] + Read(rest).rules)
  {
    var tail := expression + rest;
    assert ([token] + tail)[1..] == tail && tail[..|expression|] == expression && tail[|expression|..] == rest;
    assert [] + expression == expression;
  }

  lemma ReadAt(tokens: seq<string>, k: nat)
    requires k < |tokens|
    ensures var n := NextName(tokens, k + 1);
            Read(tokens[k..]) ==
            if !EndsInColon(tokens, k) || |tokens[k]| < 2 || n == k + 1 then Reading(false, [])
            else
              var rule := Rule(tokens[k][..|tokens[k]| - 1], Join(tokens[k + 1..n]));
              if n == |tokens| then Reading(true, [rule])
              else if |tokens[n]| < 2 then Reading(false, [])
              else Reading(Read(tokens[n..]).ok, [rule] + Read(tokens[n..]).rules)
  {
    var n := NextName(tokens, k + 1);
    ExpressionEnds(tokens, k + 1);
    assert tokens[k + 1..n] + tokens[n..] == tokens[k + 1..];
    ReadOne(tokens[k], tokens[k + 1..n], tokens[n..]);
    assert [tokens[k]] + tokens[k + 1..] == tokens[k..];
  }

  /** The parser answers true exactly for tokens that are rules, and reports those. */
  lemma {:induction false} ReadsRules(tokens: seq<string>, k: nat)
    requires k < |tokens|
    ensures Read(tokens[k..]).ok <==> AreRules(tokens, k)
    ensures AreRules(tokens, k) ==> Read(tokens[k..]).rules == RulesIn(tokens, k)
    decreases |tokens| - k
  {
    var n := NextName(tokens, k + 1);
    ReadAt(tokens, k);
    AreRulesAt(tokens, k);
    if n < |tokens| {
      ReadsRules(tokens, n);
    }
  }

  lemma AreRulesAt(tokens: seq<string>, k: nat)
    requires k < |tokens|
    ensures var n := NextName(tokens, k + 1);
            AreRules(tokens, k) <==>
            EndsInColon(tokens, k) && |tokens[k]| >= 2 && n > k + 1 && (n < |tokens| ==> AreRules(tokens, n))
  {
    var n := NextName(tokens, k + 1);
    if AreRules(tokens, k) {
      assert NamesRule(tokens, k);
      assert n > k + 1;
    }
    if EndsInColon(tokens, k) && |tokens[k]| >= 2 && n > k + 1 {
      assert !EndsInColon(tokens, k + 1) && NamesRule(tokens, k);
      if n < |tokens| && AreRules(tokens, n) {
        forall i: nat | k <= i < |tokens| && EndsInColon(tokens, i)
          ensures NamesRule(tokens, i)
        {
          assert i == k || n <= i;
        }
      }
    }
  }

  /** Of a whole text. */
  lemma ParsesRules(text: string)
    ensures Read(Words(text)).ok <==> AreRules(Words(text), 0)
    ensures AreRules(Words(text), 0) ==> Read(Words(text)).rules == RulesIn(Words(text), 0)
  {
    var tokens := Words(text);
    assert tokens[0..] == tokens;
    if tokens != [] {
      ReadsRules(tokens, 0);
    }
  }

  // --------------------------------------------------------------- by the letter

  lemma JoinThree(a: string, b: string, c: string)
    ensures Join([a, b, c]) == a + " " + b + " " + c
  {
    assert [a, b, c][1..] == [b, c] && [b, c][1..] == [c];
    assert Join([b, c]) == b + " " + c && Join([a, b, c]) == a + " " + (b + " " + c);
    assert a + " " + (b + " " + c) == a + " " + b + " " + c;
  }

  lemma OneRule(token: string, a: string, b: string, c: string)
    requires Unbroken(token) && |token| >= 2 && token[|token| - 1] == ':'
    requires Operand(a) && Operand(b) && Operand(c)
    ensures var text := token + " " + (a + " " + b + " " + c);
            && Words(text) == [token, a, b, c]
            && Read(Words(text)) == Reading(true, [Rule(token[..|token| - 1], a + " " + b + " " + c)])
  {
    var tokens := [token, a, b, c];
    JoinThree(a, b, c);
    assert tokens[1..] == [a, b, c];
    UnbrokenIsWord(token);
    UnbrokenIsWord(a);
    UnbrokenIsWord(b);
    UnbrokenIsWord(c);
    SplitJoin(tokens);
    LengthOf([a, b, c], []);
    assert [a, b, c] + [] == [a, b, c];
    ReadOne(token, [a, b, c], []);
    assert [token] + [a, b, c] == tokens;
  }

  /** Postfix operands and names are told apart by the colon alone. */
  lemma CfaRead()
    ensures var name, a, b, c := ".cfa:", "$esp", "4", "+";
            var expression := a + " " + b + " " + c;
            Read(Words(name + " " + expression)) == Reading(true, [Rule(".cfa", expression)])
  {
    var name, a, b, c := ".cfa:", "$esp", "4", "+";
    OneRule(name, a, b, c);
    assert name[..|name| - 1] == ".cfa";
  }

  /** Which name stands for which rule, and how they are printed. */
  lemma KindsOfRules(rules: RuleSet, e: string)
    ensures rules.With(Rule(".cfa", e)) == rules.(cfa := e) && rules.With(Rule(".ra", e)) == rules.(ra := e)
    ensures rules.With(Rule("$ebx", e)) == rules.(registers := rules.registers["$ebx" := e])
    ensures EMPTY == RuleSet("", "", map[])
  {
  }

  lemma Printed(cfa: string, ra: string, e: string)
    requires cfa != "" && ra != ""
    ensures Rendered(RuleSet(cfa, ra, map["$ebx" := e]), ["$ebx"]) ==
            (".cfa: " + cfa) + " " + (".ra: " + ra) + " " + ("$ebx" + ": " + e)
  {
    assert ["$ebx"][..0] == [];
  }
}
