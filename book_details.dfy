/** The metadata list of the book details page (js/book-details-page.js): which values of a
    book record are worth a row, the label a key is shown under, and how a single value is
    written. Building the page's elements is not part of this model. */
module BookDetails {
  import opened Wrappers
  import opened Strings
  import Json
  import NumberFormat

  /** `hasRenderableValue(value)`: text that is not blank, a finite number, any boolean, or
      an array or plain object holding such a value at some depth. */
  predicate HasRenderableValue(value: Json.Value)
    decreases value
  {
    match value
    case Undefined => false
    case Null => false
    case Bool(_) => true
    case Number(_) => Json.IsFinite(value)
    case Str(s) => Trim(s) != ""
    case Arr(items) => exists i :: 0 <= i < |items| && HasRenderableValue(items[i])
    case Obj(fields) => exists k :: k in fields && HasRenderableValue(fields[k])
  }

  /** Whether a value that is neither an array nor an object would be shown. */
  predicate RenderableLeaf(leaf: Json.Value) {
    match leaf
    case Bool(_) => true
    case Number(_) => Json.IsFinite(leaf)
    case Str(s) => Trim(s) != ""
    case _ => false
  }

  /** `leaf` is a value other than an array or object found inside `value`, following array
      elements and object values. */
  predicate Reaches(value: Json.Value, leaf: Json.Value)
    decreases value
  {
    match value
    case Arr(items) => exists i :: 0 <= i < |items| && Reaches(items[i], leaf)
    case Obj(fields) => exists k :: k in fields && Reaches(fields[k], leaf)
    case _ => leaf == value
  }

  /** A value is renderable exactly when something renderable is found inside it: arrays and
      objects count for nothing by themselves, so empty ones and ones holding only `null`,
      blank text or `NaN` (at any depth) are left out. */
  lemma {:induction false} RenderableIffRenderableLeaf(value: Json.Value)
    ensures HasRenderableValue(value) <==> exists leaf :: Reaches(value, leaf) && RenderableLeaf(leaf)
    decreases value
  {
    match value
    case Arr(items) =>
      if HasRenderableValue(value) {
        var i :| 0 <= i < |items| && HasRenderableValue(items[i]);
        RenderableIffRenderableLeaf(items[i]);
        var leaf :| Reaches(items[i], leaf) && RenderableLeaf(leaf);
        assert Reaches(value, leaf);
      }
      if exists leaf :: Reaches(value, leaf) && RenderableLeaf(leaf) {
        var leaf :| Reaches(value, leaf) && RenderableLeaf(leaf);
        var i :| 0 <= i < |items| && Reaches(items[i], leaf);
        RenderableIffRenderableLeaf(items[i]);
      }
    case Obj(fields) =>
      if HasRenderableValue(value) {
        var k :| k in fields && HasRenderableValue(fields[k]);
        RenderableIffRenderableLeaf(fields[k]);
        var leaf :| Reaches(fields[k], leaf) && RenderableLeaf(leaf);
        assert Reaches(value, leaf);
      }
      if exists leaf :: Reaches(value, leaf) && RenderableLeaf(leaf) {
        var leaf :| Reaches(value, leaf) && RenderableLeaf(leaf);
        var k :| k in fields && Reaches(fields[k], leaf);
        RenderableIffRenderableLeaf(fields[k]);
      }
    case _ =>
      assert Reaches(value, value);
  }

  /** The label of a blank key. */
  const BlankLabel := "بيان"

  /** `METADATA_LABELS`: the keys with a label of their own. */
  const MetadataLabels: map<string, string> := map[
    "id" := "المعرّف",
    "title" := "العنوان",
    "parts" := "عدد الأجزاء",
    "category" := "التصنيف",
    "categories" := "التصنيفات"
  ]

  predicate IsSeparator(c: char) {
    c == '_' || c == '-'
  }

  /** `s` without its leading `_` and `-` characters. */
  function DropSeparators(s: string): (r: string)
    ensures |r| <= |s|
    ensures r == [] || !IsSeparator(r[0])
  {
    if s != [] && IsSeparator(s[0]) then DropSeparators(s[1..]) else s
  }

  /** `s.replace(/[_-]+/g, ' ')`: every run of `_` and `-` characters becomes one space. */
  function CollapseSeparators(s: string): string
    decreases |s|
  {
    if s == [] then []
    else if IsSeparator(s[0]) then " " + CollapseSeparators(DropSeparators(s[1..]))
    else [s[0]] + CollapseSeparators(s[1..])
  }

  /** No `_` or `-` is left. */
  lemma {:induction false} CollapseLeavesNoSeparator(s: string)
    ensures forall i :: 0 <= i < |CollapseSeparators(s)| ==> !IsSeparator(CollapseSeparators(s)[i])
    decreases |s|
  {
    if s != [] {
      if IsSeparator(s[0]) {
        CollapseLeavesNoSeparator(DropSeparators(s[1..]));
      } else {
        CollapseLeavesNoSeparator(s[1..]);
      }
    }
  }

  /** Text without `_` or `-` is left as it is. */
  lemma {:induction false} CollapseOfPlain(s: string)
    requires forall i :: 0 <= i < |s| ==> !IsSeparator(s[i])
    ensures CollapseSeparators(s) == s
  {
    if s != [] {
      CollapseOfPlain(s[1..]);
    }
  }

  /** A run of separators at the front of the rest is dropped whole. */
  lemma {:induction false} DropRun(run: string, rest: string)
    requires forall i :: 0 <= i < |run| ==> IsSeparator(run[i])
    requires rest == [] || !IsSeparator(rest[0])
    ensures DropSeparators(run + rest) == rest
  {
    if run != [] {
      assert (run + rest)[1..] == run[1..] + rest;
      DropRun(run[1..], rest);
    } else {
      assert run + rest == rest;
    }
  }

  /** Text, then a whole run of separators, then the rest: the text is kept, the run becomes
      one space, and the rest is collapsed in turn. */
  lemma {:induction false} CollapseRun(plain: string, run: string, rest: string)
    requires forall i :: 0 <= i < |plain| ==> !IsSeparator(plain[i])
    requires run != [] && forall i :: 0 <= i < |run| ==> IsSeparator(run[i])
    requires rest == [] || !IsSeparator(rest[0])
    ensures CollapseSeparators(plain + run + rest) == plain + " " + CollapseSeparators(rest)
  {
    if plain == [] {
      assert plain + run + rest == run + rest;
      assert (run + rest)[1..] == run[1..] + rest;
      DropRun(run[1..], rest);
    } else {
      assert (plain + run + rest)[1..] == plain[1..] + run + rest;
      CollapseRun(plain[1..], run, rest);
    }
  }

  /** The names an object literal such as `METADATA_LABELS` inherits from
      `Object.prototype`, which a lookup `METADATA_LABELS[key]` finds as well. */
  const InheritedNames: set<string> := {
    "constructor", "hasOwnProperty", "isPrototypeOf", "propertyIsEnumerable", "toString",
    "toLocaleString", "valueOf", "__proto__", "__defineGetter__", "__defineSetter__",
    "__lookupGetter__", "__lookupSetter__"
  }

  /** A label as `formatMetadataLabel` returns it: text, or (for an inherited name) the
      inherited member itself, a function or the prototype object, which the page then
      writes out as its `String` form. */
  datatype Label = Text(text: string) | InheritedMember(name: string)

  /** `formatMetadataLabel(rawKey)` as written: the lookup in `METADATA_LABELS` also finds
      the names every object inherits, all of them truthy. */
  function FormatMetadataLabelAsWritten(rawKey: Json.Value): Label {
    var key := Trim(Json.StringOrEmpty(rawKey));
    if key == "" then Text(BlankLabel)
    else if key in MetadataLabels then Text(MetadataLabels[key])
    else if key in InheritedNames then InheritedMember(key)
    else Text(CollapseSeparators(key))
  }

  /** `formatMetadataLabel(rawKey)` looking up only the table's own keys: the label of a
      blank key, the table's label, or the key with each run of `_` and `-` made a space. */
  function FormatMetadataLabel(rawKey: Json.Value): string {
    var key := Trim(Json.StringOrEmpty(rawKey));
    if key == "" then BlankLabel
    else if key in MetadataLabels then MetadataLabels[key]
    else CollapseSeparators(key)
  }

  /** An inherited name used as a key is labelled with the inherited member, where the
      table's own keys alone would give the key's text. */
  lemma InheritedKeyMislabelled(key: string)
    requires key in InheritedNames && key !in MetadataLabels && key != "" && Trim(key) == key
    ensures FormatMetadataLabelAsWritten(Json.Str(key)) == InheritedMember(key)
    ensures FormatMetadataLabel(Json.Str(key)) == CollapseSeparators(key)
  {
  }

  /** A key named `valueOf` is shown as the inherited function rather than as the word
      itself. */
  lemma ValueOfKeyMislabelled()
    ensures FormatMetadataLabelAsWritten(Json.Str("valueOf")) == InheritedMember("valueOf")
    ensures FormatMetadataLabel(Json.Str("valueOf")) == "valueOf"
  {
    var key := "valueOf";
    assert Trim(key) == key by {
      TrimOfUnpadded(key);
    }
    assert key !in MetadataLabels;
    CollapseOfPlain(key);
    InheritedKeyMislabelled(key);
  }

  /** The two agree on every key other than an inherited name. */
  lemma LabelAgreesOffInheritedNames(rawKey: Json.Value)
    requires Trim(Json.StringOrEmpty(rawKey)) !in InheritedNames
    ensures FormatMetadataLabelAsWritten(rawKey) == Text(FormatMetadataLabel(rawKey))
  {
  }

  /** Every label is text: the blank-key label for a blank key, the table's label for a key
      in it, and otherwise the trimmed key with no `_` or `-` left in it. */
  lemma MetadataLabelCases(rawKey: Json.Value)
    ensures Trim(Json.StringOrEmpty(rawKey)) == "" ==> FormatMetadataLabel(rawKey) == BlankLabel
    ensures Trim(Json.StringOrEmpty(rawKey)) in MetadataLabels ==>
      FormatMetadataLabel(rawKey) == MetadataLabels[Trim(Json.StringOrEmpty(rawKey))]
    ensures Trim(Json.StringOrEmpty(rawKey)) != "" && Trim(Json.StringOrEmpty(rawKey)) !in MetadataLabels ==>
      forall i :: 0 <= i < |FormatMetadataLabel(rawKey)| ==> !IsSeparator(FormatMetadataLabel(rawKey)[i])
  {
    CollapseLeavesNoSeparator(Trim(Json.StringOrEmpty(rawKey)));
  }

  /** `formatPrimitiveValue(value)`: a number in Arabic-Indic digits, a boolean as yes or
      no, anything else as its text. */
  function FormatPrimitiveValue(value: Json.Value): string {
    match value
    case Number(_) => NumberFormat.ToArabicIndicNumber(value)
    case Bool(b) => if b then "نعم" else "لا"
    case _ => Json.ToJsString(value)
  }

  /** A whole number is written with no ASCII digit left, in as many characters as its
      decimal text, and reads back as itself. */
  lemma PrimitiveNumberReadsBack(n: nat)
    ensures |FormatPrimitiveValue(Json.Number(Json.Int(n)))| == |NatToString(n)|
    ensures forall i :: 0 <= i < |FormatPrimitiveValue(Json.Number(Json.Int(n)))| ==>
      !IsDigit(FormatPrimitiveValue(Json.Number(Json.Int(n)))[i])
    ensures NumberFormat.ParsePageNumberInput(Json.Str(FormatPrimitiveValue(Json.Number(Json.Int(n))))) == Some(n)
  {
    NumberFormat.NumberText(n);
    NumberFormat.ArabicIndicRoundTrip(n);
  }
}
