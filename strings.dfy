/** The JavaScript string primitives the library relies on: `trim`, `startsWith`,
    `indexOf`/`includes`, `split` on a literal separator, decimal formatting of numbers,
    `parseInt(_, 10)` and `toLowerCase`. Strings are sequences of UTF-16 code units, here
    `seq<char>`. */
module Strings {
  import opened Wrappers

  /** The characters `String.prototype.trim` and the regular-expression class `\s` treat as
      white space: ECMAScript WhiteSpace and LineTerminator. */
  predicate IsWhitespace(c: char) {
    c == ' ' || c == '\t' || c == '\n' || c == '\r' || c == '\U{000B}' || c == '\U{000C}'
    || c == '\U{00A0}' || c == '\U{1680}' || ('\U{2000}' <= c <= '\U{200A}')
    || c == '\U{2028}' || c == '\U{2029}' || c == '\U{202F}' || c == '\U{205F}'
    || c == '\U{3000}' || c == '\U{FEFF}'
  }

  predicate AllWhitespace(s: string) {
    forall i :: 0 <= i < |s| ==> IsWhitespace(s[i])
  }

  /** The index of the first character at or after `i` that is not white space, or `|s|`. */
  function SkipWhitespace(s: string, i: nat): (j: nat)
    requires i <= |s|
    ensures i <= j <= |s| && (j == |s| || !IsWhitespace(s[j]))
    decreases |s| - i
  {
    if i < |s| && IsWhitespace(s[i]) then SkipWhitespace(s, i + 1) else i
  }

  lemma {:induction false} SkippedAreWhitespace(s: string, i: nat)
    requires i <= |s|
    ensures forall k :: i <= k < SkipWhitespace(s, i) ==> IsWhitespace(s[k])
    decreases |s| - i
  {
    if i < |s| && IsWhitespace(s[i]) {
      SkippedAreWhitespace(s, i + 1);
    }
  }

  /** Going back from `j` but not below `lo`: one past the last character that is not
      white space, or `lo`. */
  function BackOverWhitespace(s: string, lo: nat, j: nat): (e: nat)
    requires lo <= j <= |s|
    ensures lo <= e <= j && (e == lo || !IsWhitespace(s[e - 1]))
    decreases j
  {
    if lo < j && IsWhitespace(s[j - 1]) then BackOverWhitespace(s, lo, j - 1) else j
  }

  lemma {:induction false} BackedOverAreWhitespace(s: string, lo: nat, j: nat)
    requires lo <= j <= |s|
    ensures forall k :: BackOverWhitespace(s, lo, j) <= k < j ==> IsWhitespace(s[k])
    decreases j
  {
    if lo < j && IsWhitespace(s[j - 1]) {
      BackedOverAreWhitespace(s, lo, j - 1);
    }
  }

  /** `trimStart`: drops the leading white space and nothing else. */
  function TrimStart(s: string): (r: string)
    ensures r == [] || !IsWhitespace(r[0])
  {
    s[SkipWhitespace(s, 0)..]
  }

  /** `trim`: drops the white space at both ends and nothing else. */
  function Trim(s: string): (r: string)
    ensures r == [] || (!IsWhitespace(r[0]) && !IsWhitespace(r[|r| - 1]))
    ensures |r| <= |s|
  {
    var i := SkipWhitespace(s, 0);
    s[i..BackOverWhitespace(s, i, |s|)]
  }

  /** `trim` keeps exactly the infix between the leading and the trailing white space. */
  lemma TrimInfix(s: string) returns (i: nat, j: nat)
    ensures i <= j <= |s| && Trim(s) == s[i..j]
    ensures forall k :: 0 <= k < i ==> IsWhitespace(s[k])
    ensures forall k :: j <= k < |s| ==> IsWhitespace(s[k])
  {
    i := SkipWhitespace(s, 0);
    j := BackOverWhitespace(s, i, |s|);
    SkippedAreWhitespace(s, 0);
    BackedOverAreWhitespace(s, i, |s|);
  }

  /** `trim` gives the empty string exactly for a string of white space. */
  lemma TrimEmptyIff(s: string)
    ensures Trim(s) == [] <==> AllWhitespace(s)
  {
    var i, j := TrimInfix(s);
  }

  /** A string that neither starts nor ends with white space is its own `trim`. */
  lemma TrimOfUnpadded(r: string)
    requires r == [] || (!IsWhitespace(r[0]) && !IsWhitespace(r[|r| - 1]))
    ensures Trim(r) == r
  {
    if r != [] {
      assert SkipWhitespace(r, 0) == 0;
      assert BackOverWhitespace(r, 0, |r|) == |r|;
      assert r[0..|r|] == r;
    }
  }

  /** Trimming the result of `trim` changes nothing. */
  lemma TrimIdempotent(s: string)
    ensures Trim(Trim(s)) == Trim(s)
  {
    TrimOfUnpadded(Trim(s));
  }

  /** No string occurs twice. */
  predicate Distinct(ks: seq<string>) {
    forall i, j :: 0 <= i < j < |ks| ==> ks[i] != ks[j]
  }

  /** The sequence with every occurrence of `k` removed (`filter(v => v !== k)`, or
      `delete` on the key order of a `Map`). */
  function Without(ks: seq<string>, k: string): (r: seq<string>)
    ensures |r| <= |ks|
  {
    if ks == [] then [] else (if ks[0] == k then [] else [ks[0]]) + Without(ks[1..], k)
  }

  /** Deletion keeps exactly the other keys. */
  lemma {:induction false} WithoutMembers(ks: seq<string>, k: string, x: string)
    ensures x in Without(ks, k) <==> x in ks && x != k
  {
    if ks != [] {
      WithoutMembers(ks[1..], k, x);
      assert ks == [ks[0]] + ks[1..];
    }
  }

  lemma {:induction false} WithoutAbsent(ks: seq<string>, k: string)
    requires k !in ks
    ensures Without(ks, k) == ks
  {
    if ks != [] {
      WithoutAbsent(ks[1..], k);
    }
  }

  lemma {:induction false} WithoutAppend(a: seq<string>, b: seq<string>, k: string)
    ensures Without(a + b, k) == Without(a, k) + Without(b, k)
  {
    if a == [] {
      assert a + b == b;
    } else {
      assert (a + b)[0] == a[0] && (a + b)[1..] == a[1..] + b;
      WithoutAppend(a[1..], b, k);
    }
  }

  /** Deleting a key that occurs once removes just that occurrence. */
  lemma WithoutSplit(a: seq<string>, k: string, b: seq<string>)
    requires k !in a && k !in b
    ensures Without(a + [k] + b, k) == a + b
  {
    WithoutAppend(a + [k], b, k);
    WithoutAppend(a, [k], k);
    WithoutAbsent(a, k);
    WithoutAbsent(b, k);
    assert Without([k], k) == [] by {
      assert [k][1..] == [];
    }
    assert Without(a + [k], k) == a;
  }

  /** Deletion keeps the remaining keys distinct, one fewer when the key was there. */
  lemma {:induction false} WithoutDistinct(ks: seq<string>, k: string)
    requires Distinct(ks)
    ensures Distinct(Without(ks, k))
    ensures |Without(ks, k)| == if k in ks then |ks| - 1 else |ks|
  {
    if ks != [] {
      var rest := Without(ks[1..], k);
      WithoutDistinct(ks[1..], k);
      assert ks == [ks[0]] + ks[1..];
      if ks[0] == k {
        assert k !in ks[1..];
      } else {
        WithoutMembers(ks[1..], k, ks[0]);
        assert ks[0] !in rest;
        assert k in ks <==> k in ks[1..];
      }
    }
  }

  /** The distinct non-blank strings of `ids`, in the order each first occurs (what adding
      them one by one to a `Set` and spreading it gives). */
  function KeepFirst(ids: seq<string>): seq<string> {
    if ids == [] then []
    else
      var prev := KeepFirst(ids[..|ids| - 1]);
      var id := ids[|ids| - 1];
      if id == "" || id in prev then prev else prev + [id]
  }

  /** One more string either is dropped (blank or already kept) or is kept last. */
  lemma KeepFirstStep(ids: seq<string>, i: nat)
    requires i < |ids|
    ensures ids[i] == "" || ids[i] in KeepFirst(ids[..i]) ==> KeepFirst(ids[..i + 1]) == KeepFirst(ids[..i])
    ensures ids[i] != "" && ids[i] !in KeepFirst(ids[..i]) ==>
      KeepFirst(ids[..i + 1]) == KeepFirst(ids[..i]) + [ids[i]]
  {
    var p := ids[..i + 1];
    assert p[..|p| - 1] == ids[..i] && p[|p| - 1] == ids[i];
  }

  /** De-duplication keeps exactly the non-blank strings, each once. */
  lemma {:induction false} KeepFirstMembers(ids: seq<string>, x: string)
    ensures x in KeepFirst(ids) <==> x != "" && x in ids
  {
    if ids != [] {
      var init := ids[..|ids| - 1];
      KeepFirstMembers(init, x);
      assert ids == init + [ids[|ids| - 1]];
    }
  }

  lemma {:induction false} KeepFirstDistinct(ids: seq<string>)
    ensures Distinct(KeepFirst(ids))
    ensures forall i :: 0 <= i < |KeepFirst(ids)| ==> KeepFirst(ids)[i] in ids
  {
    if ids != [] {
      var init := ids[..|ids| - 1];
      KeepFirstDistinct(init);
      assert ids == init + [ids[|ids| - 1]];
    }
  }

  /** Strings already kept keep their place when more strings follow. */
  lemma {:induction false} KeepFirstPrefix(a: seq<string>, b: seq<string>)
    ensures |KeepFirst(a)| <= |KeepFirst(a + b)|
    ensures KeepFirst(a + b)[..|KeepFirst(a)|] == KeepFirst(a)
  {
    if b == [] {
      assert a + b == a;
    } else {
      var b0 := b[..|b| - 1];
      KeepFirstPrefix(a, b0);
      assert (a + b)[..|a + b| - 1] == a + b0;
    }
  }

  /** De-duplicating strings that are distinct and non-blank changes nothing. */
  lemma {:induction false} KeepFirstOfDistinct(ids: seq<string>)
    requires Distinct(ids) && forall i :: 0 <= i < |ids| ==> ids[i] != ""
    ensures KeepFirst(ids) == ids
  {
    if ids != [] {
      var init := ids[..|ids| - 1];
      KeepFirstOfDistinct(init);
      assert ids[|ids| - 1] !in init;
      assert init + [ids[|ids| - 1]] == ids;
    }
  }

  predicate StartsWith(s: string, prefix: string) {
    |prefix| <= |s| && s[..|prefix|] == prefix
  }

  /** `p` occurs in `s` starting at offset `k`. */
  predicate OccursAt(s: string, p: string, k: int) {
    0 <= k && k + |p| <= |s| && s[k..k + |p|] == p
  }

  /** `s.indexOf(p, from)` for `from <= s.length`: the first occurrence at or after `from`,
      or -1. */
  function IndexOf(s: string, p: string, from: nat): (r: int)
    ensures r == -1 || (from <= r && OccursAt(s, p, r))
    decreases |s| - from
  {
    if from + |p| > |s| then -1
    else if s[from..from + |p|] == p then from
    else IndexOf(s, p, from + 1)
  }

  /** `indexOf` misses nothing: no occurrence lies between `from` and its result, and none at
      all at or after `from` when it returns -1. */
  lemma {:induction false} IndexOfIsFirst(s: string, p: string, from: nat)
    ensures var r := IndexOf(s, p, from);
      forall k :: from <= k && (r == -1 || k < r) ==> !OccursAt(s, p, k)
    decreases |s| - from
  {
    if from + |p| <= |s| && s[from..from + |p|] != p {
      IndexOfIsFirst(s, p, from + 1);
    }
  }

  /** A `slice` bound: negative counts back from the end, and both ends are clamped to the
      string. */
  function SliceIndex(i: int, len: nat): (r: nat)
    ensures r <= len
  {
    if i < 0 then (if len + i < 0 then 0 else len + i) else if i > len then len else i
  }

  /** `s.slice(a, b)`: empty when the clamped start is not before the clamped end. */
  function Slice(s: string, a: int, b: int): (r: string)
    ensures 0 <= a <= b <= |s| ==> r == s[a..b]
  {
    var i, j := SliceIndex(a, |s|), SliceIndex(b, |s|);
    if i < j then s[i..j] else ""
  }

  /** `s.includes(p)`. */
  predicate Contains(s: string, p: string) {
    IndexOf(s, p, 0) != -1
  }

  lemma ContainsIff(s: string, p: string)
    ensures Contains(s, p) <==> exists k :: OccursAt(s, p, k)
  {
    IndexOfIsFirst(s, p, 0);
    if Contains(s, p) {
      assert OccursAt(s, p, IndexOf(s, p, 0));
    }
  }

  lemma OccursInPrefix(s: string, p: string, k: nat, j: int)
    requires k <= |s| && OccursAt(s[..k], p, j)
    ensures OccursAt(s, p, j)
  {
    assert s[..k][j..j + |p|] == s[j..j + |p|];
  }

  /** `s.split(sep)` for a non-empty literal separator: the pieces between the successive
      leftmost occurrences of `sep`; none of them contains `sep`, and there is only the one
      piece `s` exactly when `s` does not contain `sep`. */
  function SplitOn(s: string, sep: string): (parts: seq<string>)
    requires |sep| > 0
    ensures |parts| >= 1
    ensures forall i :: 0 <= i < |parts| ==> !Contains(parts[i], sep)
    ensures |parts| == 1 <==> !Contains(s, sep)
    ensures !Contains(s, sep) ==> parts == [s]
    decreases |s|
  {
    var k := IndexOf(s, sep, 0);
    if k == -1 then
      [s]
    else
      FirstPieceHasNoSeparator(s, sep, k);
      [s[..k]] + SplitOn(s[k + |sep|..], sep)
  }

  lemma FirstPieceHasNoSeparator(s: string, sep: string, k: int)
    requires |sep| > 0 && k == IndexOf(s, sep, 0) && k != -1
    ensures !Contains(s[..k], sep)
  {
    IndexOfIsFirst(s, sep, 0);
    if Contains(s[..k], sep) {
      OccursInPrefix(s, sep, k, IndexOf(s[..k], sep, 0));
    }
  }

  lemma ConcatAssoc<T>(a: seq<T>, b: seq<T>, c: seq<T>)
    ensures a + (b + c) == (a + b) + c
  {
  }

  /** The strings `f` gives for the elements of `s`, one after the other. */
  function ConcatMap<T>(f: T -> string, s: seq<T>): string {
    if s == [] then [] else f(s[0]) + ConcatMap(f, s[1..])
  }

  /** Mapping and concatenating distributes over concatenation. */
  lemma {:induction false} ConcatMapAppend<T>(f: T -> string, a: seq<T>, b: seq<T>)
    ensures ConcatMap(f, a + b) == ConcatMap(f, a) + ConcatMap(f, b)
  {
    if a == [] {
      assert a + b == b;
    } else {
      ConcatMapAppend(f, a[1..], b);
      assert (a + b)[0] == a[0] && (a + b)[1..] == a[1..] + b;
      assert ConcatMap(f, a + b) == f(a[0]) + ConcatMap(f, a[1..] + b);
    }
  }

  lemma ConcatMapSingle<T>(f: T -> string, x: T)
    ensures ConcatMap(f, [x]) == f(x)
  {
    assert ConcatMap(f, [x]) == f(x) + ConcatMap(f, []);
  }

  lemma ConcatMapPair<T>(f: T -> string, x: T, y: T, rest: seq<T>)
    ensures ConcatMap(f, [x, y] + rest) == f(x) + f(y) + ConcatMap(f, rest)
  {
    ConcatMapAppend(f, [x, y], rest);
    assert [x, y][1..] == [y];
    ConcatMapSingle(f, y);
  }

  function Join(parts: seq<string>, sep: string): string
    requires |parts| >= 1
  {
    if |parts| == 1 then parts[0] else parts[0] + sep + Join(parts[1..], sep)
  }

  /** Joining the pieces of a split with the separator gives back the text. */
  lemma {:induction false} JoinSplit(s: string, sep: string)
    requires |sep| > 0
    ensures Join(SplitOn(s, sep), sep) == s
    decreases |s|
  {
    var k := IndexOf(s, sep, 0);
    if k != -1 {
      var rest := s[k + |sep|..];
      JoinSplit(rest, sep);
      SplitOnStep(s, sep, k);
      JoinCons(s[..k], SplitOn(rest, sep), sep);
      SplitAround(s, sep, k);
    }
  }

  /** Two texts that differ at a position both prefixes reach stay different whatever
      follows the first. */
  lemma DifferentPrefix(a: string, b: string, rest: string, i: nat)
    requires i < |a| && i < |b| && a[i] != b[i]
    ensures a + rest != b
  {
    assert (a + rest)[i] == a[i];
  }

  lemma SplitOnStep(s: string, sep: string, k: int)
    requires |sep| > 0 && k == IndexOf(s, sep, 0) && k != -1
    ensures SplitOn(s, sep) == [s[..k]] + SplitOn(s[k + |sep|..], sep)
  {
  }

  lemma SplitAround(s: string, sep: string, k: int)
    requires OccursAt(s, sep, k)
    ensures s == s[..k] + sep + s[k + |sep|..]
  {
  }

  lemma JoinCons(head: string, tail: seq<string>, sep: string)
    requires |tail| >= 1
    ensures Join([head] + tail, sep) == head + sep + Join(tail, sep)
  {
    assert ([head] + tail)[1..] == tail;
  }

  /** `text.split('\n')`. */
  function Lines(s: string): (lines: seq<string>)
    ensures |lines| >= 1
  {
    SplitOn(s, "\n")
  }

  predicate IsDigit(c: char) {
    '0' <= c <= '9'
  }

  predicate AllDigits(s: string) {
    forall i :: 0 <= i < |s| ==> IsDigit(s[i])
  }

  function DigitValue(c: char): (d: nat)
    requires IsDigit(c)
    ensures d < 10
  {
    c as int - '0' as int
  }

  function DigitChar(d: nat): (c: char)
    requires d < 10
    ensures IsDigit(c) && DigitValue(c) == d
  {
    ('0' as int + d) as char
  }

  /** The decimal digits of a natural number, as `String(n)` writes them. */
  function NatToString(n: nat): (s: string)
    ensures |s| >= 1 && AllDigits(s)
    ensures s[0] == '0' ==> n == 0
    decreases n
  {
    if n < 10 then [DigitChar(n)] else NatToString(n / 10) + [DigitChar(n % 10)]
  }

  /** `String(i)` for an integer. */
  function IntToString(i: int): string {
    if i < 0 then "-" + NatToString(-i) else NatToString(i)
  }

  /** The value of a string of decimal digits. */
  function DigitsValue(s: string): nat
    requires AllDigits(s)
  {
    if s == [] then 0 else 10 * DigitsValue(s[..|s| - 1]) + DigitValue(s[|s| - 1])
  }

  /** Reading back the digits that `NatToString` writes gives the number. */
  lemma {:induction false} DigitsValueOfNatToString(n: nat)
    ensures DigitsValue(NatToString(n)) == n
    decreases n
  {
    if n >= 10 {
      DigitsValueOfNatToString(n / 10);
      var s := NatToString(n);
      assert s[..|s| - 1] == NatToString(n / 10);
    }
  }

  /** The longest prefix of decimal digits. */
  function DigitPrefix(s: string): (d: string)
    ensures |d| <= |s| && d == s[..|d|] && AllDigits(d)
    ensures |d| == |s| || !IsDigit(s[|d|])
    decreases |s|
  {
    if |s| > 0 && IsDigit(s[0]) then [s[0]] + DigitPrefix(s[1..]) else []
  }

  lemma {:induction false} DigitPrefixOfDigits(s: string, rest: string)
    requires AllDigits(s)
    requires rest == [] || !IsDigit(rest[0])
    ensures DigitPrefix(s + rest) == s
    decreases |s|
  {
    if s == [] {
      assert s + rest == rest;
    } else {
      assert (s + rest)[1..] == s[1..] + rest;
      DigitPrefixOfDigits(s[1..], rest);
    }
  }

  /** `parseInt(s, 10)`: leading white space, an optional sign, then the longest run of
      decimal digits; `None` stands for `NaN`, when there is no digit. */
  function ParseIntPrefix(s: string): (r: Option<int>)
    ensures r.None? <==> DigitPrefix(UnsignedPart(TrimStart(s))) == []
  {
    var t := TrimStart(s);
    var d := DigitPrefix(UnsignedPart(t));
    if d == [] then None
    else if |t| > 0 && t[0] == '-' then Some(-(DigitsValue(d) as int))
    else Some(DigitsValue(d))
  }

  function UnsignedPart(t: string): string {
    if |t| > 0 && (t[0] == '-' || t[0] == '+') then t[1..] else t
  }

  /** `parseInt` reads back every decimal numeral, with any trailing text ignored. */
  lemma ParseIntOfNatToString(n: nat, rest: string)
    requires rest == [] || !IsDigit(rest[0])
    ensures ParseIntPrefix(NatToString(n) + rest) == Some(n)
  {
    var s := NatToString(n);
    assert !IsWhitespace(s[0]);
    assert (s + rest)[0] == s[0];
    assert SkipWhitespace(s + rest, 0) == 0;
    assert TrimStart(s + rest) == s + rest;
    assert UnsignedPart(s + rest) == s + rest;
    DigitPrefixOfDigits(s, rest);
    DigitsValueOfNatToString(n);
  }

  /** `parseInt` reads back `String(i)` for every integer. */
  lemma ParseIntOfIntToString(i: int)
    ensures ParseIntPrefix(IntToString(i)) == Some(i)
  {
    if i >= 0 {
      ParseIntOfNatToString(i, []);
      assert NatToString(i) + [] == NatToString(i);
    } else {
      var d := NatToString(-i);
      var s := "-" + d;
      assert SkipWhitespace(s, 0) == 0;
      assert TrimStart(s) == s;
      assert UnsignedPart(s) == d;
      DigitPrefixOfDigits(d, []);
      assert d + [] == d;
      DigitsValueOfNatToString(-i);
    }
  }

  /** `toLowerCase` on one code unit; only the ASCII letters are folded in this model. */
  function LowerChar(c: char): char {
    if 'A' <= c <= 'Z' then (c as int + 32) as char else c
  }

  /** `toLowerCase`, applied code unit by code unit. */
  function Lower(s: string): (r: string)
    ensures |r| == |s| && forall i :: 0 <= i < |s| ==> r[i] == LowerChar(s[i])
  {
    seq(|s|, i requires 0 <= i < |s| => LowerChar(s[i]))
  }

  lemma LowerIdempotent(s: string)
    ensures Lower(Lower(s)) == Lower(s)
  {
  }

  /** Unicode canonical composition (`normalize('NFC')`): text is taken to arrive composed,
      so this is the identity. */
  function Nfc(s: string): (r: string)
    ensures |r| == |s|
  {
    s
  }
}
