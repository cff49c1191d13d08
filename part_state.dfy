/** The reader's per-part slots (js/reader/part-state.js, with `getPartLabel` of
    js/reader/part-selector.js): one idle, empty slot per part, labelled `الجزء` and the part
    number in Arabic-Indic digits, and the connection check that allows preloading the next
    part. */
module PartState {
  import opened Wrappers
  import opened Strings
  import Json
  import NumberFormat

  /** A part slot as first built: its label, its text, its load status and whether a load
      request is attached. */
  datatype PartSlot = PartSlot(labelText: string, text: string, status: string, hasRequest: bool)

  const PartWord := "الجزء "

  /** `getPartLabel(index, toArabicIndicNumber)`. */
  function PartLabel(index: nat): string {
    PartWord + NumberFormat.ToArabicIndicNumber(Json.Number(Json.Int(index + 1)))
  }

  /** `buildBookPartState(partCount, toArabicIndicNumber)`. */
  function BuildBookPartState(partCount: Json.Value): seq<PartSlot> {
    var total := if Json.IsInteger(partCount) && partCount.n.i > 1 then partCount.n.i else 1;
    seq(total, i requires 0 <= i < total => PartSlot(PartLabel(i), "", "idle", false))
  }

  /** One slot per part (a single one unless the count is an integer above 1), each idle,
      empty, without a request and labelled with its part number. */
  lemma PartStateSlots(partCount: Json.Value)
    ensures |BuildBookPartState(partCount)| == if Json.IsInteger(partCount) && partCount.n.i > 1 then partCount.n.i else 1
    ensures forall i :: 0 <= i < |BuildBookPartState(partCount)| ==>
      BuildBookPartState(partCount)[i] == PartSlot(PartLabel(i), "", "idle", false)
  {
  }

  /** The label of part `index` reads back, as a page-number input, as the one-based part
      number. */
  lemma PartLabelReadsBack(index: nat)
    ensures NumberFormat.ParsePageNumber(PartLabel(index)) == Some(index + 1)
  {
    var n := index + 1;
    var digits := NatToString(n);
    NumberFormat.NumberText(n);
    assert forall i :: 0 <= i < |PartWord| ==> !NumberFormat.IsAnyDigit(PartWord[i]);
    NumberFormat.DigitlessPrefixIgnored(PartWord, NumberFormat.ToArabicIndic(digits));
    NumberFormat.ParseArabicIndicDigits(digits);
    DigitsValueOfNatToString(n);
  }

  /** The browser's navigator, as far as `canPreloadNextPart` looks at it. */
  datatype Navigator = Navigator(connection: Json.Value, mozConnection: Json.Value, webkitConnection: Json.Value)

  /** `a || b`. */
  function Or(a: Json.Value, b: Json.Value): Json.Value {
    if Json.Truthy(a) then a else b
  }

  /** The connection `canPreloadNextPart` consults, falsy when there is none. */
  function ConnectionOf(nav: Navigator): Json.Value {
    Or(Or(nav.connection, nav.mozConnection), nav.webkitConnection)
  }

  /** The lower-cased `effectiveType` of a connection, empty when it has none. */
  function EffectiveType(connection: Json.Value): string {
    Lower(Json.ToJsString(Or(Json.Get(connection, "effectiveType"), Json.Str(""))))
  }

  /** `canPreloadNextPart()`; `None` stands for a page without `navigator`. */
  predicate CanPreloadNextPart(navigator: Option<Navigator>) {
    match navigator
    case None => true
    case Some(nav) =>
      var connection := ConnectionOf(nav);
      if !Json.Truthy(connection) then true
      else if Json.Truthy(Json.Get(connection, "saveData")) then false
      else !Contains(EffectiveType(connection), "2g")
  }

  /** Preloading is refused exactly when there is a connection that saves data or reports a
      `2g` type, in any letter case; with no navigator or no connection it is allowed. */
  lemma PreloadUnlessSlowOrSaving(navigator: Option<Navigator>)
    ensures !CanPreloadNextPart(navigator) <==>
      navigator.Some? && Json.Truthy(ConnectionOf(navigator.value))
      && (Json.Truthy(Json.Get(ConnectionOf(navigator.value), "saveData"))
          || Contains(EffectiveType(ConnectionOf(navigator.value)), "2g"))
  {
  }

  /** The three ways a connection is found are tried in order. */
  lemma ConnectionFallsBack(nav: Navigator)
    ensures Json.Truthy(nav.connection) ==> ConnectionOf(nav) == nav.connection
    ensures !Json.Truthy(nav.connection) && Json.Truthy(nav.mozConnection) ==> ConnectionOf(nav) == nav.mozConnection
    ensures !Json.Truthy(nav.connection) && !Json.Truthy(nav.mozConnection) ==> ConnectionOf(nav) == nav.webkitConnection
  {
  }
}
