/** Page numbers in the reader (js/reader/number-format.js): numbers shown in Arabic-Indic
    digits, and page numbers typed in any of ASCII, Arabic-Indic or Extended Arabic-Indic
    digits. */
module NumberFormat {
  import opened Wrappers
  import opened Strings
  import Json

  /** U+0660, the Arabic-Indic zero. */
  const ArabicIndicZero := 0x0660

  /** U+06F0, the Extended Arabic-Indic (Persian) zero. */
  const ExtendedArabicIndicZero := 0x06F0

  predicate IsArabicIndicDigit(c: char) {
    ArabicIndicZero <= c as int <= ArabicIndicZero + 9
  }

  predicate IsExtendedArabicIndicDigit(c: char) {
    ExtendedArabicIndicZero <= c as int <= ExtendedArabicIndicZero + 9
  }

  /** One character of `toArabicIndicNumber`: an ASCII digit `d` becomes U+0660 + d. */
  function ToArabicIndicChar(c: char): (r: char)
    ensures IsDigit(c) ==> IsArabicIndicDigit(r) && r as int - ArabicIndicZero == DigitValue(c)
    ensures !IsDigit(c) ==> r == c
  {
    if IsDigit(c) then (ArabicIndicZero + DigitValue(c)) as char else c
  }

  /** `toArabicIndicNumber` on the text: every ASCII digit replaced, the length kept. */
  function ToArabicIndic(s: string): (r: string)
    ensures |r| == |s| && forall i :: 0 <= i < |s| ==> r[i] == ToArabicIndicChar(s[i])
  {
    seq(|s|, i requires 0 <= i < |s| => ToArabicIndicChar(s[i]))
  }

  /** `toArabicIndicNumber(value)`. */
  function ToArabicIndicNumber(value: Json.Value): string {
    ToArabicIndic(Json.ToJsString(value))
  }

  /** The two `replace` calls of `parsePageNumberInput`, on one character: an Arabic-Indic or
      Extended Arabic-Indic digit becomes the ASCII digit of the same value. */
  function AsciiDigitOf(c: char): (r: char)
    ensures IsArabicIndicDigit(c) ==> IsDigit(r) && DigitValue(r) == c as int - ArabicIndicZero
    ensures IsExtendedArabicIndicDigit(c) ==> IsDigit(r) && DigitValue(r) == c as int - ExtendedArabicIndicZero
    ensures !IsArabicIndicDigit(c) && !IsExtendedArabicIndicDigit(c) ==> r == c
  {
    if IsArabicIndicDigit(c) then DigitChar(c as int - ArabicIndicZero)
    else if IsExtendedArabicIndicDigit(c) then DigitChar(c as int - ExtendedArabicIndicZero)
    else c
  }

  /** Both replacements over a whole string. */
  function AsciiDigits(s: string): (t: string)
    ensures |t| == |s| && forall i :: 0 <= i < |s| ==> t[i] == AsciiDigitOf(s[i])
  {
    seq(|s|, i requires 0 <= i < |s| => AsciiDigitOf(s[i]))
  }

  /** `replace(/[^\d]/g, '')`: the ASCII digits of `s`, in order. */
  function KeepDigits(s: string): (d: string)
    ensures AllDigits(d) && |d| <= |s|
  {
    if s == [] then []
    else KeepDigits(s[..|s| - 1]) + (if IsDigit(s[|s| - 1]) then [s[|s| - 1]] else [])
  }

  /** `parsePageNumberInput` on the text: `None` for `null`, when no digit is left. */
  function ParsePageNumber(s: string): Option<nat> {
    var d := KeepDigits(AsciiDigits(s));
    if d == [] then None else Some(DigitsValue(d))
  }

  /** `parsePageNumberInput(value)`. */
  function ParsePageNumberInput(value: Json.Value): Option<nat> {
    ParsePageNumber(Json.ToJsString(value))
  }

  /** A character any of the three digit sets. */
  predicate IsAnyDigit(c: char) {
    IsDigit(c) || IsArabicIndicDigit(c) || IsExtendedArabicIndicDigit(c)
  }

  lemma {:induction false} KeepDigitsEmptyIff(s: string)
    ensures KeepDigits(s) == [] <==> forall i :: 0 <= i < |s| ==> !IsDigit(s[i])
  {
    if s != [] {
      var init := s[..|s| - 1];
      KeepDigitsEmptyIff(init);
      assert forall i :: 0 <= i < |init| ==> init[i] == s[i];
    }
  }

  /** There is no page number exactly when the input holds no digit of any of the three
      sets. */
  lemma NoNumberIffNoDigit(s: string)
    ensures ParsePageNumber(s).None? <==> forall i :: 0 <= i < |s| ==> !IsAnyDigit(s[i])
  {
    var t := AsciiDigits(s);
    KeepDigitsEmptyIff(t);
    assert forall i :: 0 <= i < |s| ==> (IsDigit(t[i]) <==> IsAnyDigit(s[i]));
  }

  lemma {:induction false} KeepDigitsAppend(a: string, b: string)
    ensures KeepDigits(a + b) == KeepDigits(a) + KeepDigits(b)
    decreases |b|
  {
    if b == [] {
      assert a + b == a;
    } else {
      var b0 := b[..|b| - 1];
      KeepDigitsAppend(a, b0);
      assert (a + b)[..|a + b| - 1] == a + b0;
    }
  }

  lemma {:induction false} KeepDigitsOfDigits(s: string)
    requires AllDigits(s)
    ensures KeepDigits(s) == s
  {
    if s != [] {
      KeepDigitsOfDigits(s[..|s| - 1]);
    }
  }

  /** Other characters between digits are dropped and the digits run together: `1a2` reads
      as 12. */
  lemma DigitsRunTogether(a: string, junk: string, b: string)
    requires forall i :: 0 <= i < |junk| ==> !IsDigit(junk[i])
    ensures KeepDigits(a + junk + b) == KeepDigits(a) + KeepDigits(b)
  {
    KeepDigitsAppend(a + junk, b);
    KeepDigitsAppend(a, junk);
    KeepDigitsEmptyIff(junk);
  }

  lemma AsciiDigitsOfOneATwo()
    ensures AsciiDigits("1a2") == "1a2"
  {
  }

  lemma KeepDigitsOfOneATwo()
    ensures KeepDigits("1a2") == "12"
  {
    var t := "1a2";
    assert KeepDigits(t[..1]) == "1";
    assert KeepDigits(t[..2]) == "1";
  }

  lemma AsciiDigitsAppend(a: string, b: string)
    ensures AsciiDigits(a + b) == AsciiDigits(a) + AsciiDigits(b)
  {
  }

  /** Text without digits in front of the input changes no page number. */
  lemma DigitlessPrefixIgnored(prefix: string, s: string)
    requires forall i :: 0 <= i < |prefix| ==> !IsAnyDigit(prefix[i])
    ensures ParsePageNumber(prefix + s) == ParsePageNumber(s)
  {
    AsciiDigitsAppend(prefix, s);
    NoNumberIffNoDigit(prefix);
    assert KeepDigits(AsciiDigits(prefix)) == [];
    KeepDigitsAppend(AsciiDigits(prefix), AsciiDigits(s));
    assert KeepDigits(AsciiDigits(prefix + s)) == KeepDigits(AsciiDigits(s));
  }

  /** `1a2` is page 12. */
  lemma OneAThenTwoIsTwelve()
    ensures ParsePageNumber("1a2") == Some(12)
  {
    AsciiDigitsOfOneATwo();
    KeepDigitsOfOneATwo();
    assert DigitsValue("12") == 12;
  }

  /** An ASCII digit shown in Arabic-Indic reads back as itself. */
  lemma ArabicIndicCharBack(c: char)
    requires IsDigit(c)
    ensures AsciiDigitOf(ToArabicIndicChar(c)) == c
  {

  }

  /** Text of ASCII digits shown in Arabic-Indic reads back as the same text. */
  lemma ArabicIndicBack(digits: string)
    requires AllDigits(digits)
    ensures AsciiDigits(ToArabicIndic(digits)) == digits
  {
    forall i | 0 <= i < |digits| ensures AsciiDigits(ToArabicIndic(digits))[i] == digits[i] {
      ArabicIndicCharBack(digits[i]);
    }
  }

  /** A non-empty run of ASCII digits, shown in Arabic-Indic, reads back as its value. */
  lemma ParseArabicIndicDigits(digits: string)
    requires AllDigits(digits) && digits != []
    ensures ParsePageNumber(ToArabicIndic(digits)) == Some(DigitsValue(digits))
  {
    ArabicIndicBack(digits);
    KeepDigitsOfDigits(digits);
  }

  /** A number written in Arabic-Indic digits reads back as the number. */
  lemma ArabicIndicRoundTrip(n: nat)
    ensures ParsePageNumberInput(Json.Str(ToArabicIndicNumber(Json.Number(Json.Int(n))))) == Some(n)
  {
    NumberText(n);
    ParseArabicIndicDigits(NatToString(n));
    DigitsValueOfNatToString(n);
  }

  lemma NumberText(n: nat)
    ensures Json.ToJsString(Json.Number(Json.Int(n))) == NatToString(n)
  {
  }
}
