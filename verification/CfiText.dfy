/** Words of a text: what strtok_r makes of a rule set, and putting words together again. */
module CfiText {
  predicate IsBreak(c: char) {
    c == ' ' || c == '\t' || c == '\r' || c == '\n'
  }

  /** How many characters come before the next break. */
  function WordLength(s: string): (n: nat)
    ensures n <= |s|
    ensures forall i :: 0 <= i < n ==> !IsBreak(s[i])
    ensures n < |s| ==> IsBreak(s[n])
  {
    if s == "" || IsBreak(s[0]) then 0 else 1 + WordLength(s[1..])
  }

  function Words(s: string): seq<string>
    decreases |s|
  {
    if s == "" then []
    else if IsBreak(s[0]) then Words(s[1..])
    else [s[..WordLength(s)]] + Words(s[WordLength(s)..])
  }

  predicate IsWord(w: string) {
    w != "" && forall i :: 0 <= i < |w| ==> !IsBreak(w[i])
  }

  predicate AllWords(words: seq<string>) {
    forall i :: 0 <= i < |words| ==> IsWord(words[i])
  }

  /** The words with one space between. */
  function Join(words: seq<string>): string {
    if words == [] then ""
    else if |words| == 1 then words[0]
    else words[0] + " " + Join(words[1..])
  }

  lemma WordFirst(w: string, rest: string)
    requires IsWord(w) && (rest == "" || IsBreak(rest[0]))
    ensures WordLength(w + rest) == |w|
    ensures Words(w + rest) == [w] + Words(rest)
  {
    assert (w + rest)[..|w|] == w && (w + rest)[|w|..] == rest;
  }

  /** Splitting undoes joining. */
  lemma {:induction false} SplitJoin(words: seq<string>)
    requires AllWords(words)
    ensures Words(Join(words)) == words
  {
    if |words| == 1 {
      WordFirst(words[0], "");
      assert words[0] + "" == words[0];
    } else if |words| > 1 {
      var rest := " " + Join(words[1..]);
      SplitJoin(words[1..]);
      WordFirst(words[0], rest);
      assert words[0] + rest == words[0] + " " + Join(words[1..]);
      assert rest[1..] == Join(words[1..]);
    }
  }

  lemma {:induction false} WordsAreWords(s: string)
    ensures AllWords(Words(s))
    decreases |s|
  {
    if s != "" {
      if IsBreak(s[0]) {
        WordsAreWords(s[1..]);
      } else {
        WordsAreWords(s[WordLength(s)..]);
      }
    }
  }

  /** Joining two lists of words. */
  lemma {:induction false} JoinConcat(a: seq<string>, b: seq<string>)
    requires a != [] && b != []
    ensures Join(a + b) == Join(a) + " " + Join(b)
    decreases |a|
  {
    assert (a + b)[1..] == a[1..] + b;
    if |a| > 1 {
      JoinConcat(a[1..], b);
      assert Join(a + b) == a[0] + " " + (Join(a[1..]) + " " + Join(b));
    }
  }

  lemma {:induction false} JoinNotEmpty(words: seq<string>)
    requires words != [] && AllWords(words)
    ensures Join(words) != ""
  {
  }
}
