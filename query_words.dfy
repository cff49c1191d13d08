/** The word floor of the library search (js/shared/query-words.js): a query is counted in
    words, the maximal runs of non-white-space characters, and must have at least a minimum
    number of them. */
module QueryWords {
  import opened Strings
  import Json

  const DefaultMinQueryWords := 2

  /** The first white space at or after `i`, or the end. */
  function NextWhitespace(s: string, i: nat): (k: nat)
    requires i <= |s|
    ensures i <= k <= |s| && (k == |s| || IsWhitespace(s[k]))
    ensures forall j :: i <= j < k ==> !IsWhitespace(s[j])
    decreases |s| - i
  {
    if i == |s| || IsWhitespace(s[i]) then i else NextWhitespace(s, i + 1)
  }

  /** `s.split(/\s+/u)`: the pieces between maximal runs of white space, with an empty first
      piece when `s` starts with white space and an empty last one when it ends with it. */
  function SplitWhitespace(s: string): (parts: seq<string>)
    ensures |parts| >= 1
    decreases |s|
  {
    var k := NextWhitespace(s, 0);
    if k == |s| then [s] else [s[..k]] + SplitWhitespace(s[SkipWhitespace(s, k)..])
  }

  function CountNonEmpty(parts: seq<string>): nat {
    if parts == [] then 0 else (if parts[0] != [] then 1 else 0) + CountNonEmpty(parts[1..])
  }

  /** `countQueryWords(value)`. */
  function CountQueryWords(value: Json.Value): nat {
    CountNonEmpty(SplitWhitespace(Trim(Json.StringOrEmpty(value))))
  }

  /** `hasMinimumQueryWords(value, minimum)`: a minimum that is not a positive integer counts
      as 2. */
  predicate HasMinimumQueryWords(value: Json.Value, minimum: Json.Value) {
    var safeMinimum := if Json.IsInteger(minimum) && minimum.n.i > 0 then minimum.n.i else DefaultMinQueryWords;
    CountQueryWords(value) >= safeMinimum
  }

  // ----- Words as runs -----

  /** The number of maximal runs of non-white-space characters of `s`, the character before
      `s` being white space exactly when `afterSpace`. */
  function Runs(s: string, afterSpace: bool): nat
    decreases |s|
  {
    if s == [] then 0
    else (if afterSpace && !IsWhitespace(s[0]) then 1 else 0) + Runs(s[1..], IsWhitespace(s[0]))
  }

  /** The words of `s`: its maximal runs of non-white-space characters. */
  function Words(s: string): nat {
    Runs(s, true)
  }

  lemma {:induction false} RunsOfWhitespace(s: string, afterSpace: bool)
    requires AllWhitespace(s) && |s| > 0
    ensures forall t :: Runs(s + t, afterSpace) == Runs(t, true)
    decreases |s|
  {
    forall t ensures Runs(s + t, afterSpace) == Runs(t, true) {
      assert (s + t)[0] == s[0] && (s + t)[1..] == s[1..] + t;
      if |s| > 1 {
        RunsOfWhitespace(s[1..], true);
      } else {
        assert s[1..] + t == t;
      }
    }
  }

  lemma {:induction false} RunsOfWord(s: string, t: string, afterSpace: bool)
    requires forall j :: 0 <= j < |s| ==> !IsWhitespace(s[j])
    requires |s| > 0
    ensures Runs(s + t, afterSpace) == (if afterSpace then 1 else 0) + Runs(t, false)
    decreases |s|
  {
    assert (s + t)[0] == s[0] && (s + t)[1..] == s[1..] + t;
    if |s| > 1 {
      RunsOfWord(s[1..], t, false);
    } else {
      assert s[1..] + t == t;
    }
  }

  lemma RunsAfterWord(t: string)
    requires t == [] || IsWhitespace(t[0])
    ensures Runs(t, false) == Runs(t, true)
  {
  }

  /** A word, then white space: one word more than what follows the white space. */
  lemma WordsAtFirstSpace(s: string, k: nat, e: nat)
    requires k < |s| && k == NextWhitespace(s, 0) && e == SkipWhitespace(s, k)
    ensures Words(s) == (if k > 0 then 1 else 0) + Words(s[e..])
  {
    SkippedAreWhitespace(s, k);
    var rest := s[e..];
    assert s == s[..k] + (s[k..e] + rest);
    RunsOfWhitespace(s[k..e], true);
    if k > 0 {
      RunsOfWord(s[..k], s[k..e] + rest, true);
      RunsAfterWord(s[k..e] + rest);
    }
  }

  lemma SplitAtFirstSpace(s: string, k: nat, e: nat)
    requires k < |s| && k == NextWhitespace(s, 0) && e == SkipWhitespace(s, k)
    ensures CountNonEmpty(SplitWhitespace(s)) == (if k > 0 then 1 else 0) + CountNonEmpty(SplitWhitespace(s[e..]))
  {
    assert SplitWhitespace(s) == [s[..k]] + SplitWhitespace(s[e..]);
  }

  /** Dropping the empty pieces of the white-space split leaves one piece per word. */
  lemma {:induction false} SplitCountsWords(s: string)
    ensures CountNonEmpty(SplitWhitespace(s)) == Words(s)
    decreases |s|
  {
    var k := NextWhitespace(s, 0);
    if k == |s| {
      if s != [] {
        RunsOfWord(s, [], true);
        assert s + [] == s;
      }
    } else {
      var e := SkipWhitespace(s, k);
      SplitCountsWords(s[e..]);
      WordsAtFirstSpace(s, k, e);
      SplitAtFirstSpace(s, k, e);
    }
  }

  /** `countQueryWords` counts the words of the value's text. */
  lemma CountIsWords(value: Json.Value)
    ensures CountQueryWords(value) == Words(Trim(Json.StringOrEmpty(value)))
  {
    SplitCountsWords(Trim(Json.StringOrEmpty(value)));
  }

  /** Runs over a concatenation. */
  lemma {:induction false} RunsAppend(a: string, b: string, afterSpace: bool)
    ensures Runs(a + b, afterSpace)
      == Runs(a, afterSpace) + Runs(b, if a == [] then afterSpace else IsWhitespace(a[|a| - 1]))
    decreases |a|
  {
    if a == [] {
      assert a + b == b;
    } else {
      assert (a + b)[0] == a[0] && (a + b)[1..] == a[1..] + b;
      RunsAppend(a[1..], b, IsWhitespace(a[0]));
    }
  }

  lemma {:induction false} RunsOfAllWhitespace(s: string, afterSpace: bool)
    requires AllWhitespace(s)
    ensures Runs(s, afterSpace) == 0
    decreases |s|
  {
    if s != [] {
      RunsOfAllWhitespace(s[1..], true);
    }
  }

  lemma WordsAfterWhitespace(w: string, t: string)
    requires AllWhitespace(w)
    ensures Words(w + t) == Words(t)
  {
    RunsAppend(w, t, true);
    RunsOfAllWhitespace(w, true);
    if w != [] {
      assert IsWhitespace(w[|w| - 1]);
    }
  }

  lemma RunsBeforeWhitespace(t: string, w: string, afterSpace: bool)
    requires AllWhitespace(w)
    ensures Runs(t + w, afterSpace) == Runs(t, afterSpace)
  {
    RunsAppend(t, w, afterSpace);
    RunsOfAllWhitespace(w, if t == [] then afterSpace else IsWhitespace(t[|t| - 1]));
  }

  /** White space around the text changes no word count. */
  lemma WordsAroundWhitespace(w1: string, t: string, w2: string)
    requires AllWhitespace(w1) && AllWhitespace(w2)
    ensures Words(w1 + t + w2) == Words(t)
  {
    assert w1 + t + w2 == w1 + (t + w2);
    WordsAfterWhitespace(w1, t + w2);
    RunsBeforeWhitespace(t, w2, true);
  }

  lemma WordsOfTrim(s: string)
    ensures Words(Trim(s)) == Words(s)
  {
    var i, j := TrimInfix(s);
    assert s == s[..i] + s[i..j] + s[j..];
    assert AllWhitespace(s[..i]) && AllWhitespace(s[j..]);
    WordsAroundWhitespace(s[..i], s[i..j], s[j..]);
  }

  /** The word count is the number of runs of non-white-space in the text, white space
      around the text does not matter, and a missing or blank value has no words. */
  lemma CountQueryWordsOfText(s: string, w1: string, w2: string)
    requires AllWhitespace(w1) && AllWhitespace(w2)
    ensures CountQueryWords(Json.Str(s)) == Words(s)
    ensures CountQueryWords(Json.Str(w1 + s + w2)) == CountQueryWords(Json.Str(s))
    ensures CountQueryWords(Json.Null) == CountQueryWords(Json.Undefined) == 0
    ensures AllWhitespace(s) ==> CountQueryWords(Json.Str(s)) == 0
  {
    CountIsWords(Json.Str(s));
    WordsOfTrim(s);
    CountIsWords(Json.Str(w1 + s + w2));
    WordsOfTrim(w1 + s + w2);
    WordsAroundWhitespace(w1, s, w2);
    CountIsWords(Json.Null);
    CountIsWords(Json.Undefined);
    if AllWhitespace(s) {
      RunsOfAllWhitespace(s, true);
    }
  }

  /** The floor holds exactly when the query has at least the minimum number of words, so
      a query that meets a floor meets every lower positive one. */
  lemma MinimumIsMonotone(value: Json.Value, m: int, lower: int)
    requires 0 < lower <= m
    ensures HasMinimumQueryWords(value, Json.Number(Json.Int(m))) <==> CountQueryWords(value) >= m
    ensures HasMinimumQueryWords(value, Json.Number(Json.Int(m))) ==> HasMinimumQueryWords(value, Json.Number(Json.Int(lower)))
  {
  }

  /** A minimum that is not a positive integer (`null`, text, a fraction, 0 or less) asks
      for two words. */
  lemma MinimumFallsBack(value: Json.Value, minimum: Json.Value)
    requires !(Json.IsInteger(minimum) && minimum.n.i > 0)
    ensures HasMinimumQueryWords(value, minimum) <==> CountQueryWords(value) >= 2
  {
  }
}
