/** Import of variants from a JSON file (src/features/settings/variants/utils.ts):
    the shape checks on the parsed value, the ordered rule checks with
    first-failure semantics and positional messages, and the completion of
    an imported variant with the default settings. */
module VariantValidation {
  import opened Common

  // ---------------------------------------------------------------------
  // Parsed JSON values

  /** A value `JSON.parse` can return. A key missing from an object stands
      for `undefined`. */
  datatype Json =
    | JNull
    | JBool(b: bool)
    | JNumber(n: real)
    | JString(s: string)
    | JArray(items: seq<Json>)
    | JObject(fields: map<string, Json>)

  /** `o?.key` (and `o.key` on an object): the member when `o` is an object
      that has it, else `undefined`. */
  function Member(o: Option<Json>, key: string): (r: Option<Json>)
    ensures r.Some? <==> o.Some? && o.value.JObject? && key in o.value.fields
    ensures r.Some? ==> r.value == o.value.fields[key]
  {
    if o.Some? && o.value.JObject? && key in o.value.fields then Some(o.value.fields[key]) else None
  }

  /** JavaScript truthiness; `undefined` is falsy. */
  predicate Truthy(o: Option<Json>) {
    match o
    case None => false
    case Some(JNull) => false
    case Some(JBool(b)) => b
    case Some(JNumber(n)) => n != 0.0
    case Some(JString(s)) => s != ""
    case Some(JArray(_)) => true
    case Some(JObject(_)) => true
  }

  /** `typeof x === 'object'`: objects, arrays and `null`. */
  predicate IsObjectTyped(o: Option<Json>) {
    o.Some? && (o.value.JNull? || o.value.JArray? || o.value.JObject?)
  }

  predicate IsString(o: Option<Json>) {
    o.Some? && o.value.JString?
  }

  predicate IsNumber(o: Option<Json>) {
    o.Some? && o.value.JNumber?
  }

  predicate IsBoolean(o: Option<Json>) {
    o.Some? && o.value.JBool?
  }

  // ---------------------------------------------------------------------
  // Shape predicates

  /** `isDimension`: an object whose `mode` is `exact` or `upto` and whose
      `value`, when present, is a number. */
  predicate IsDimension(o: Option<Json>) {
    && o.Some? && o.value.JObject?
    && Member(o, "mode") in {Some(JString("exact")), Some(JString("upto"))}
    && (Member(o, "value").None? || IsNumber(Member(o, "value")))
  }

  /** `isAspectRatio`: an object with a boolean `enabled` and a string
      `value`. */
  predicate IsAspectRatio(o: Option<Json>) {
    o.Some? && o.value.JObject? && IsBoolean(Member(o, "enabled")) && IsString(Member(o, "value"))
  }

  /** The resampling filters the resizer knows. */
  const PicaFilters: seq<string> := ["lanczos3", "box", "hamming", "lanczos2", "mks2013"]

  /** `isPicaFilter`: one of the five filter names. */
  predicate IsPicaFilter(o: Option<Json>) {
    o.Some? && o.value.JString? && o.value.s in PicaFilters
  }

  /** A field that is absent or of the expected kind. */
  predicate AbsentOr(o: Option<Json>, kind: Option<Json> -> bool) {
    o.None? || kind(o)
  }

  /** The checks of `isVariant` on every field except `height`. */
  predicate VariantFieldsShaped(v: Json) {
    && v.JObject?
    && IsString(Member(Some(v), "id"))
    && IsString(Member(Some(v), "name"))
    && AbsentOr(Member(Some(v), "width"), IsObjectTyped)
    && AbsentOr(Member(Some(v), "prefix"), IsString)
    && AbsentOr(Member(Some(v), "suffix"), IsString)
    && AbsentOr(Member(Some(v), "pattern"), IsString)
    && AbsentOr(Member(Some(v), "crop"), IsBoolean)
    && AbsentOr(Member(Some(v), "filter"), IsString)
    && AbsentOr(Member(Some(v), "quality"), IsNumber)
    && AbsentOr(Member(Some(v), "sharpenAmount"), IsNumber)
    && AbsentOr(Member(Some(v), "sharpenRadius"), IsNumber)
    && AbsentOr(Member(Some(v), "sharpenThreshold"), IsNumber)
    && AbsentOr(Member(Some(v), "aspectRatio"), IsObjectTyped)
  }

  /** `isVariant` as written: its `height` clause tests the type of `width`,
      so a present `height` is accepted whenever `width` is an object. */
  predicate IsVariantAsWritten(v: Json) {
    && VariantFieldsShaped(v)
    && (Member(Some(v), "height").None? || IsObjectTyped(Member(Some(v), "width")))
  }

  /** `isVariant` as intended: `height`, like `width`, is absent or an
      object. */
  predicate IsVariant(v: Json) {
    && VariantFieldsShaped(v)
    && AbsentOr(Member(Some(v), "height"), IsObjectTyped)
  }

  /** The `height` clause as written lets a numeric height through next to
      an object width. */
  lemma AsWrittenAcceptsNumericHeight()
    ensures IsVariantAsWritten(JObject(map["id" := JString("a"), "name" := JString("A"),
                                           "width" := JObject(map[]), "height" := JNumber(5.0)]))
    ensures !IsVariant(JObject(map["id" := JString("a"), "name" := JString("A"),
                                   "width" := JObject(map[]), "height" := JNumber(5.0)]))
  {
    var v := JObject(map["id" := JString("a"), "name" := JString("A"),
                         "width" := JObject(map[]), "height" := JNumber(5.0)]);
    assert Member(Some(v), "height") == Some(JNumber(5.0));
    assert Member(Some(v), "width") == Some(JObject(map[]));
  }

  /** The `height` clause as written turns away a variant that gives only a
      height. */
  lemma AsWrittenRejectsHeightOnly()
    ensures !IsVariantAsWritten(JObject(map["id" := JString("a"), "name" := JString("A"),
                                            "height" := JObject(map[])]))
    ensures IsVariant(JObject(map["id" := JString("a"), "name" := JString("A"),
                                  "height" := JObject(map[])]))
  {
    var v := JObject(map["id" := JString("a"), "name" := JString("A"), "height" := JObject(map[])]);
    assert Member(Some(v), "width") == None;
    assert Member(Some(v), "height") == Some(JObject(map[]));
  }

  /** The variant with its `width` and `height` exchanged. */
  function SwapSides(v: Json): (w: Json)
    requires v.JObject?
    ensures w.JObject?
    ensures Member(Some(w), "width") == Member(Some(v), "height")
    ensures Member(Some(w), "height") == Member(Some(v), "width")
    ensures forall k :: k != "width" && k != "height" ==> Member(Some(w), k) == Member(Some(v), k)
  {
    var others := v.fields - {"width", "height"};
    var withWidth := if "height" in v.fields then others["width" := v.fields["height"]] else others;
    JObject(if "width" in v.fields then withWidth["height" := v.fields["width"]] else withWidth)
  }

  /** As intended, `isVariant` treats the two sides alike: exchanging them
      never changes the verdict. */
  lemma IsVariantTreatsSidesAlike(v: Json)
    requires v.JObject?
    ensures IsVariant(SwapSides(v)) <==> IsVariant(v)
  {
    var w := SwapSides(v);
    assert VariantFieldsShaped(w) && AbsentOr(Member(Some(w), "height"), IsObjectTyped) <==>
           VariantFieldsShaped(v) && AbsentOr(Member(Some(v), "height"), IsObjectTyped) by {
      assert Member(Some(w), "id") == Member(Some(v), "id");
      assert Member(Some(w), "name") == Member(Some(v), "name");
      assert Member(Some(w), "prefix") == Member(Some(v), "prefix");
      assert Member(Some(w), "suffix") == Member(Some(v), "suffix");
      assert Member(Some(w), "pattern") == Member(Some(v), "pattern");
      assert Member(Some(w), "crop") == Member(Some(v), "crop");
      assert Member(Some(w), "filter") == Member(Some(v), "filter");
      assert Member(Some(w), "quality") == Member(Some(v), "quality");
      assert Member(Some(w), "sharpenAmount") == Member(Some(v), "sharpenAmount");
      assert Member(Some(w), "sharpenRadius") == Member(Some(v), "sharpenRadius");
      assert Member(Some(w), "sharpenThreshold") == Member(Some(v), "sharpenThreshold");
      assert Member(Some(w), "aspectRatio") == Member(Some(v), "aspectRatio");
    }
  }

  /** Both versions agree whenever the width and the height are both absent
      or both objects. */
  lemma HeightCheckAgreesOnWellFormed(v: Json)
    requires IsObjectTyped(Member(Some(v), "width")) == IsObjectTyped(Member(Some(v), "height"))
    requires Member(Some(v), "width").None? == Member(Some(v), "height").None?
    ensures IsVariantAsWritten(v) <==> IsVariant(v)
  {
  }

  // ---------------------------------------------------------------------
  // validateJSONVariants

  const NotJsonMessage := "The file is not valid JSON. Please upload a properly formatted JSON file."
  const InvalidDataMessage := "The data in the file is invalid. Please check the variant settings and try again."

  /** `validateJSONVariants` from the parsed value on (`None` when
      `JSON.parse` throws), with `accepts` as the test of each element: the
      value must be a non-empty array whose every element passes. */
  function ValidateJsonWith(parsed: Option<Json>, accepts: Json -> bool): (r: Result<seq<Json>, string>)
    ensures r.Ok? <==> parsed.Some? && parsed.value.JArray? && |parsed.value.items| > 0
                       && forall i :: 0 <= i < |parsed.value.items| ==> accepts(parsed.value.items[i])
    ensures r.Ok? ==> r.value == parsed.value.items
    ensures parsed.None? ==> r == Err(NotJsonMessage)
    ensures parsed.Some? && r.Err? ==> r == Err(InvalidDataMessage)
  {
    if parsed.None? then Err(NotJsonMessage)
    else
      var variants := parsed.value;
      if !variants.JArray? || |variants.items| == 0
         || !(forall i :: 0 <= i < |variants.items| ==> accepts(variants.items[i])) then
        Err(InvalidDataMessage)
      else
        Ok(variants.items)
  }

  /** `validateJSONVariants` as written, testing each element with
      `isVariant` as written. */
  function ValidateJsonVariantsAsWritten(parsed: Option<Json>): (r: Result<seq<Json>, string>)
    ensures r.Ok? <==> parsed.Some? && parsed.value.JArray? && |parsed.value.items| > 0
                       && forall i :: 0 <= i < |parsed.value.items| ==> IsVariantAsWritten(parsed.value.items[i])
    ensures r.Ok? ==> r.value == parsed.value.items
    ensures parsed.None? ==> r == Err(NotJsonMessage)
    ensures parsed.Some? && r.Err? ==> r == Err(InvalidDataMessage)
  {
    ValidateJsonWith(parsed, IsVariantAsWritten)
  }

  /** `validateJSONVariants` as intended, testing each element with the
      corrected `isVariant`. */
  function ValidateJsonVariants(parsed: Option<Json>): (r: Result<seq<Json>, string>)
    ensures r.Ok? <==> parsed.Some? && parsed.value.JArray? && |parsed.value.items| > 0
                       && forall i :: 0 <= i < |parsed.value.items| ==> IsVariant(parsed.value.items[i])
    ensures r.Ok? ==> r.value == parsed.value.items
    ensures parsed.None? ==> r == Err(NotJsonMessage)
    ensures parsed.Some? && r.Err? ==> r == Err(InvalidDataMessage)
  {
    ValidateJsonWith(parsed, IsVariant)
  }

  /** The file-level consequence of the `height` slip: as written, a file
      holding one variant with a numeric height next to an object width is
      imported; as intended it is refused. */
  lemma ImportAsWrittenTakesNumericHeight(v: Json)
    requires v == JObject(map["id" := JString("a"), "name" := JString("A"),
                              "width" := JObject(map[]), "height" := JNumber(5.0)])
    ensures ValidateJsonVariantsAsWritten(Some(JArray([v]))) == Ok([v])
    ensures ValidateJsonVariants(Some(JArray([v]))) == Err(InvalidDataMessage)
  {
    AsWrittenAcceptsNumericHeight();
    assert JArray([v]).items[0] == v;
  }

  /** And the other way round: as written, a file holding one variant that
      gives only a height is refused; as intended it is imported. */
  lemma ImportAsWrittenRefusesHeightOnly(v: Json)
    requires v == JObject(map["id" := JString("a"), "name" := JString("A"), "height" := JObject(map[])])
    ensures ValidateJsonVariantsAsWritten(Some(JArray([v]))) == Err(InvalidDataMessage)
    ensures ValidateJsonVariants(Some(JArray([v]))) == Ok([v])
  {
    AsWrittenRejectsHeightOnly();
    assert JArray([v]).items[0] == v;
  }

  // ---------------------------------------------------------------------
  // validateVariants

  /** The rules `validateVariants` applies to each variant, in order. */
  datatype Rule =
    | DuplicateId
    | EmptyName
    | UnknownFilter
    | QualityOutOfRange
    | SharpenAmountOutOfRange
    | SharpenRadiusOutOfRange
    | SharpenThresholdOutOfRange
    | InvalidWidth
    | InvalidHeight
    | NegativeWidth
    | NegativeHeight
    | InvalidAspectRatio
    | AspectRatioValueInvalid
    | AspectRatioNeedsBothValues
    | AspectRatioNeedsSameMode

  /** The position of a rule in the order `validateVariants` checks them. */
  function Rank(rule: Rule): nat {
    match rule
    case DuplicateId => 0
    case EmptyName => 1
    case UnknownFilter => 2
    case QualityOutOfRange => 3
    case SharpenAmountOutOfRange => 4
    case SharpenRadiusOutOfRange => 5
    case SharpenThresholdOutOfRange => 6
    case InvalidWidth => 7
    case InvalidHeight => 8
    case NegativeWidth => 9
    case NegativeHeight => 10
    case InvalidAspectRatio => 11
    case AspectRatioValueInvalid => 12
    case AspectRatioNeedsBothValues => 13
    case AspectRatioNeedsSameMode => 14
  }

  /** The sharpening bounds of the variants store, the aspect-ratio syntax
      check of the settings panel, and the way a number is printed. */
  datatype Limits = Limits(
    amountMin: real, amountMax: real,
    radiusMin: real, radiusMax: real,
    thresholdMin: real, thresholdMax: real,
    isValidAspectRatio: string -> bool,
    show: real -> string)

  /** `hasDuplicate(variants, 'id')`: two variants share an id. */
  predicate HasDuplicateIds(variants: seq<Json>) {
    exists a, b :: 0 <= a < b < |variants| && Member(Some(variants[a]), "id") == Member(Some(variants[b]), "id")
  }

  /** A present number outside `[lo, hi]`. */
  predicate OutOfRange(o: Option<Json>, lo: real, hi: real) {
    o.Some? && o.value.JNumber? && (o.value.n < lo || o.value.n > hi)
  }

  /** A present negative number. */
  predicate Negative(o: Option<Json>) {
    o.Some? && o.value.JNumber? && o.value.n < 0.0
  }

  /** Whether `variant`, inside the list `variants`, breaks `rule`. */
  predicate Violates(variants: seq<Json>, variant: Json, rule: Rule, limits: Limits) {
    var v := Some(variant);
    match rule
    case DuplicateId => HasDuplicateIds(variants)
    case EmptyName => IsString(Member(v, "name")) && Trim(Member(v, "name").value.s) == ""
    case UnknownFilter => Member(v, "filter").Some? && !IsPicaFilter(Member(v, "filter"))
    case QualityOutOfRange => OutOfRange(Member(v, "quality"), 0.0, 1.0)
    case SharpenAmountOutOfRange => OutOfRange(Member(v, "sharpenAmount"), limits.amountMin, limits.amountMax)
    case SharpenRadiusOutOfRange => OutOfRange(Member(v, "sharpenRadius"), limits.radiusMin, limits.radiusMax)
    case SharpenThresholdOutOfRange =>
      OutOfRange(Member(v, "sharpenThreshold"), limits.thresholdMin, limits.thresholdMax)
    case InvalidWidth => Truthy(Member(v, "width")) && !IsDimension(Member(v, "width"))
    case InvalidHeight => Truthy(Member(v, "height")) && !IsDimension(Member(v, "height"))
    case NegativeWidth => Negative(Member(Member(v, "width"), "value"))
    case NegativeHeight => Negative(Member(Member(v, "height"), "value"))
    case InvalidAspectRatio => Truthy(Member(v, "aspectRatio")) && !IsAspectRatio(Member(v, "aspectRatio"))
    case AspectRatioValueInvalid =>
      Truthy(Member(Member(v, "aspectRatio"), "value"))
      && IsString(Member(Member(v, "aspectRatio"), "value"))
      && !limits.isValidAspectRatio(Member(Member(v, "aspectRatio"), "value").value.s)
    case AspectRatioNeedsBothValues =>
      Truthy(Member(Member(v, "aspectRatio"), "enabled"))
      && (Member(Member(v, "width"), "value").None? || Member(Member(v, "height"), "value").None?)
    case AspectRatioNeedsSameMode =>
      Truthy(Member(Member(v, "aspectRatio"), "enabled"))
      && Member(Member(v, "width"), "mode") != Member(Member(v, "height"), "mode")
  }

  /** The `if` chain of the `forEach` callback: the first rule, in the order
      the source checks them, for which `broken` holds. */
  function FirstOf(broken: Rule -> bool): Option<Rule> {
    if broken(DuplicateId) then Some(DuplicateId)
    else if broken(EmptyName) then Some(EmptyName)
    else if broken(UnknownFilter) then Some(UnknownFilter)
    else if broken(QualityOutOfRange) then Some(QualityOutOfRange)
    else if broken(SharpenAmountOutOfRange) then Some(SharpenAmountOutOfRange)
    else if broken(SharpenRadiusOutOfRange) then Some(SharpenRadiusOutOfRange)
    else if broken(SharpenThresholdOutOfRange) then Some(SharpenThresholdOutOfRange)
    else if broken(InvalidWidth) then Some(InvalidWidth)
    else if broken(InvalidHeight) then Some(InvalidHeight)
    else if broken(NegativeWidth) then Some(NegativeWidth)
    else if broken(NegativeHeight) then Some(NegativeHeight)
    else if broken(InvalidAspectRatio) then Some(InvalidAspectRatio)
    else if broken(AspectRatioValueInvalid) then Some(AspectRatioValueInvalid)
    else if broken(AspectRatioNeedsBothValues) then Some(AspectRatioNeedsBothValues)
    else if broken(AspectRatioNeedsSameMode) then Some(AspectRatioNeedsSameMode)
    else None
  }

  /** The chain reports a rule exactly when it is broken and no rule checked
      before it is, and nothing when no rule is broken. */
  lemma FirstOfIsEarliestBroken(broken: Rule -> bool)
    ensures FirstOf(broken).None? <==> forall rule :: !broken(rule)
    ensures FirstOf(broken).Some? ==>
              broken(FirstOf(broken).value) && forall rule :: Rank(rule) < Rank(FirstOf(broken).value) ==> !broken(rule)
  {
    if FirstOf(broken).None? {
      forall rule
        ensures !broken(rule)
      {
        match rule
        case DuplicateId =>
        case EmptyName =>
        case UnknownFilter =>
        case QualityOutOfRange =>
        case SharpenAmountOutOfRange =>
        case SharpenRadiusOutOfRange =>
        case SharpenThresholdOutOfRange =>
        case InvalidWidth =>
        case InvalidHeight =>
        case NegativeWidth =>
        case NegativeHeight =>
        case InvalidAspectRatio =>
        case AspectRatioValueInvalid =>
        case AspectRatioNeedsBothValues =>
        case AspectRatioNeedsSameMode =>
      }
    }
  }

  /** The body of the `forEach` callback: the first rule the variant breaks. */
  function FirstViolation(variants: seq<Json>, variant: Json, limits: Limits): Option<Rule> {
    FirstOf(rule => Violates(variants, variant, rule, limits))
  }

  /** What `validateVariants` throws: the 1-based position of the variant and
      the rule it breaks. */
  datatype Invalid = Invalid(position: nat, rule: Rule)

  /** The callback's verdict on each variant of the list. */
  function Verdicts(variants: seq<Json>, limits: Limits): (verdicts: seq<Option<Rule>>)
    ensures |verdicts| == |variants|
    ensures forall j :: 0 <= j < |variants| ==> verdicts[j] == FirstViolation(variants, variants[j], limits)
  {
    seq(|variants|, j requires 0 <= j < |variants| => FirstViolation(variants, variants[j], limits))
  }

  /** The `forEach` from position `i` on: the first verdict that names a
      rule is thrown, with its 1-based position. */
  function FirstFailure(verdicts: seq<Option<Rule>>, i: nat): (r: Outcome<Invalid>)
    requires i <= |verdicts|
    ensures r.Pass? <==> forall j :: i <= j < |verdicts| ==> verdicts[j].None?
    ensures r.Fail? ==> i < r.error.position <= |verdicts| && verdicts[r.error.position - 1] == Some(r.error.rule)
                        && forall j :: i <= j < r.error.position - 1 ==> verdicts[j].None?
    decreases |verdicts| - i
  {
    if i == |verdicts| then Pass
    else
      match verdicts[i]
      case Some(rule) => Fail(Invalid(i + 1, rule))
      case None => FirstFailure(verdicts, i + 1)
  }

  /** The fields `validateVariants` reads with a type in mind: string id and
      name, a string filter and numeric quality and sharpening when present.
      Both versions of `isVariant` guarantee them. */
  predicate Shaped(v: Json) {
    && v.JObject?
    && IsString(Member(Some(v), "id"))
    && IsString(Member(Some(v), "name"))
    && AbsentOr(Member(Some(v), "filter"), IsString)
    && AbsentOr(Member(Some(v), "quality"), IsNumber)
    && AbsentOr(Member(Some(v), "sharpenAmount"), IsNumber)
    && AbsentOr(Member(Some(v), "sharpenRadius"), IsNumber)
    && AbsentOr(Member(Some(v), "sharpenThreshold"), IsNumber)
  }

  lemma ImportedVariantsAreShaped(v: Json)
    requires IsVariant(v) || IsVariantAsWritten(v)
    ensures Shaped(v)
  {
  }

  /** `validateVariants`: passes when no variant breaks a rule; otherwise
      fails on the first variant, in list order, that breaks one, naming the
      first rule it breaks and its 1-based position. */
  function ValidateVariants(variants: seq<Json>, limits: Limits): (r: Outcome<Invalid>)
    requires forall i :: 0 <= i < |variants| ==> Shaped(variants[i])
    ensures r.Pass? <==> forall i :: 0 <= i < |variants| ==> FirstViolation(variants, variants[i], limits).None?
    ensures r.Fail? ==> 1 <= r.error.position <= |variants|
                        && FirstViolation(variants, variants[r.error.position - 1], limits) == Some(r.error.rule)
                        && forall j :: 0 <= j < r.error.position - 1 ==> FirstViolation(variants, variants[j], limits).None?
  {
    FirstFailure(Verdicts(variants, limits), 0)
  }

  /** A repeated id is caught while checking the first variant, so it is
      always reported at position 1, whichever variants repeat it. */
  lemma DuplicateIdReportedAtFirstVariant(variants: seq<Json>, limits: Limits)
    requires forall i :: 0 <= i < |variants| ==> Shaped(variants[i])
    requires HasDuplicateIds(variants)
    ensures ValidateVariants(variants, limits) == Fail(Invalid(1, DuplicateId))
  {
    assert Violates(variants, variants[0], DuplicateId, limits);
  }

  /** What passing each rule guarantees about a variant. */
  lemma PassedSettingsRules(variants: seq<Json>, variant: Json, limits: Limits)
    requires !Violates(variants, variant, DuplicateId, limits)
    requires !Violates(variants, variant, EmptyName, limits)
    requires !Violates(variants, variant, UnknownFilter, limits)
    requires !Violates(variants, variant, QualityOutOfRange, limits)
    ensures !HasDuplicateIds(variants)
    ensures IsString(Member(Some(variant), "name")) ==> Trim(Member(Some(variant), "name").value.s) != ""
    ensures Member(Some(variant), "filter").Some? ==> IsPicaFilter(Member(Some(variant), "filter"))
    ensures IsNumber(Member(Some(variant), "quality")) ==> 0.0 <= Member(Some(variant), "quality").value.n <= 1.0
  {
  }

  lemma PassedDimensionRules(variants: seq<Json>, variant: Json, limits: Limits)
    requires !Violates(variants, variant, InvalidWidth, limits)
    requires !Violates(variants, variant, InvalidHeight, limits)
    requires !Violates(variants, variant, NegativeWidth, limits)
    requires !Violates(variants, variant, NegativeHeight, limits)
    ensures Truthy(Member(Some(variant), "width")) ==> IsDimension(Member(Some(variant), "width"))
    ensures Truthy(Member(Some(variant), "height")) ==> IsDimension(Member(Some(variant), "height"))
    ensures IsNumber(Member(Member(Some(variant), "width"), "value")) ==>
              Member(Member(Some(variant), "width"), "value").value.n >= 0.0
    ensures IsNumber(Member(Member(Some(variant), "height"), "value")) ==>
              Member(Member(Some(variant), "height"), "value").value.n >= 0.0
  {
  }

  lemma PassedAspectRatioRules(variants: seq<Json>, variant: Json, limits: Limits)
    requires !Violates(variants, variant, InvalidAspectRatio, limits)
    requires !Violates(variants, variant, AspectRatioNeedsBothValues, limits)
    requires !Violates(variants, variant, AspectRatioNeedsSameMode, limits)
    ensures Truthy(Member(Some(variant), "aspectRatio")) ==> IsAspectRatio(Member(Some(variant), "aspectRatio"))
    ensures Truthy(Member(Member(Some(variant), "aspectRatio"), "enabled")) ==>
              && Member(Member(Some(variant), "width"), "value").Some?
              && Member(Member(Some(variant), "height"), "value").Some?
              && Member(Member(Some(variant), "width"), "mode") == Member(Member(Some(variant), "height"), "mode")
  {
  }

  /** A variant the callback lets through comes from a list without repeated
      ids, has a non-blank name, a known filter, a quality in [0, 1],
      well-formed non-negative dimensions, and, when its aspect ratio is
      enabled, a width and a height value in the same mode. */
  lemma PassingVariantIsSound(variants: seq<Json>, variant: Json, limits: Limits)
    requires FirstViolation(variants, variant, limits).None?
    ensures !HasDuplicateIds(variants)
    ensures IsString(Member(Some(variant), "name")) ==> Trim(Member(Some(variant), "name").value.s) != ""
    ensures Member(Some(variant), "filter").Some? ==> IsPicaFilter(Member(Some(variant), "filter"))
    ensures IsNumber(Member(Some(variant), "quality")) ==> 0.0 <= Member(Some(variant), "quality").value.n <= 1.0
    ensures Truthy(Member(Some(variant), "width")) ==> IsDimension(Member(Some(variant), "width"))
    ensures Truthy(Member(Some(variant), "height")) ==> IsDimension(Member(Some(variant), "height"))
    ensures IsNumber(Member(Member(Some(variant), "width"), "value")) ==>
              Member(Member(Some(variant), "width"), "value").value.n >= 0.0
    ensures IsNumber(Member(Member(Some(variant), "height"), "value")) ==>
              Member(Member(Some(variant), "height"), "value").value.n >= 0.0
    ensures Truthy(Member(Some(variant), "aspectRatio")) ==> IsAspectRatio(Member(Some(variant), "aspectRatio"))
    ensures Truthy(Member(Member(Some(variant), "aspectRatio"), "enabled")) ==>
              && Member(Member(Some(variant), "width"), "value").Some?
              && Member(Member(Some(variant), "height"), "value").Some?
              && Member(Member(Some(variant), "width"), "mode") == Member(Member(Some(variant), "height"), "mode")
  {
    PassedSettingsRules(variants, variant, limits);
    PassedDimensionRules(variants, variant, limits);
    PassedAspectRatioRules(variants, variant, limits);
  }

  /** `Invalid data in variant No. ${index + 1}. ` */
  function Intro(position: nat): string {
    IntroOpening + NatToString(position) + ". "
  }

  const IntroOpening := "Invalid data in variant No. "

  function RuleText(rule: Rule, limits: Limits): string {
    match rule
    case DuplicateId => "Variant IDs must be unique."
    case EmptyName => "Variant name cannot be empty."
    case UnknownFilter => "Filter must be one of the following: lanczos3, box, hamming, lanczos2, mks2013."
    case QualityOutOfRange => "Quality must be between 0 and 1."
    case SharpenAmountOutOfRange =>
      "Sharpen amount must be between " + limits.show(limits.amountMin) + " and " + limits.show(limits.amountMax) + "."
    case SharpenRadiusOutOfRange =>
      "Sharpen radius must be between " + limits.show(limits.radiusMin) + " and " + limits.show(limits.radiusMax) + "."
    case SharpenThresholdOutOfRange =>
      "Sharpen threshold must be between " + limits.show(limits.thresholdMin) + " and "
      + limits.show(limits.thresholdMax) + "."
    case InvalidWidth => "Invalid width parameters."
    case InvalidHeight => "Invalid height parameters."
    case NegativeWidth => "Width must be greater than or equal to 0."
    case NegativeHeight => "Height must be greater than or equal to 0."
    case InvalidAspectRatio => "Invalid aspect ratio parameters."
    case AspectRatioValueInvalid => "Aspect ratio is invalid."
    case AspectRatioNeedsBothValues => "Both width and height values must be provided when aspect ratio is enabled."
    case AspectRatioNeedsSameMode => "Both width and height must have the same mode when aspect ratio is enabled."
  }

  /** The message thrown: the positional intro followed by the rule's text. */
  function Message(e: Invalid, limits: Limits): (m: string)
    ensures |Intro(e.position)| <= |m| && m[..|Intro(e.position)|] == Intro(e.position)
  {
    Intro(e.position) + RuleText(e.rule, limits)
  }

  /** Different positions give different intros, so the message tells which
      variant failed. */
  lemma IntroNamesPosition(p: nat, q: nat)
    requires Intro(p) == Intro(q)
    ensures p == q
  {
    assert NatToString(p) == Intro(p)[|IntroOpening|..|Intro(p)| - 2];
    assert NatToString(q) == Intro(q)[|IntroOpening|..|Intro(q)| - 2];
    NatToStringInjective(p, q);
  }

  /** Whatever the rule texts, equal messages name the same variant: the
      number ends at the first `.` after the intro's opening words. */
  lemma MessageNamesPosition(e1: Invalid, e2: Invalid, limits: Limits)
    requires Message(e1, limits) == Message(e2, limits)
    ensures e1.position == e2.position
  {
    var m := Message(e1, limits);
    IntroSpells(e1.position, m);
    IntroSpells(e2.position, m);
    NumberEndsAtDot(m, |IntroOpening|, NatToString(e1.position), NatToString(e2.position));
    NatToStringInjective(e1.position, e2.position);
  }

  /** Two runs of digits read from the same place, each followed by a `.`,
      are the same run: where the shorter one ends the longer one would have
      a digit, not a `.`. */
  lemma NumberEndsAtDot(m: string, n: nat, d1: string, d2: string)
    requires AllDigits(d1) && AllDigits(d2)
    requires n + |d1| < |m| && m[n..n + |d1|] == d1 && m[n + |d1|] == '.'
    requires n + |d2| < |m| && m[n..n + |d2|] == d2 && m[n + |d2|] == '.'
    ensures d1 == d2
  {
  }

  /** A text starting with the intro of `p` holds the digits of `p` right
      after the opening words, then a `.`. */
  lemma IntroSpells(p: nat, m: string)
    requires |Intro(p)| <= |m| && m[..|Intro(p)|] == Intro(p)
    ensures |IntroOpening| + |NatToString(p)| < |m|
    ensures m[|IntroOpening|..|IntroOpening| + |NatToString(p)|] == NatToString(p)
    ensures m[|IntroOpening| + |NatToString(p)|] == '.'
  {
    var n := |IntroOpening|;
    var d := NatToString(p);
    assert Intro(p)[n..n + |d|] == d;
    assert Intro(p)[n + |d|] == '.';
    assert m[n..n + |d|] == m[..|Intro(p)|][n..n + |d|];
  }

  // ---------------------------------------------------------------------
  // mapToFullVariant

  /** `{ ...getDefaultVariantSettings(), ...variant, id: variant.id, name:
      variant.name }` on the variant's fields: every supplied field
      overrides the default, every other default is kept. */
  function MapToFullVariant(defaults: map<string, Json>, variant: map<string, Json>): (full: map<string, Json>)
    requires "id" in variant && "name" in variant
    ensures full.Keys == defaults.Keys + variant.Keys
    ensures forall k :: k in variant ==> full[k] == variant[k]
    ensures forall k :: k in defaults && k !in variant ==> full[k] == defaults[k]
  {
    (defaults + variant)["id" := variant["id"]]["name" := variant["name"]]
  }

  /** Completing a completed variant changes nothing. */
  lemma MapToFullVariantIdempotent(defaults: map<string, Json>, variant: map<string, Json>)
    requires "id" in variant && "name" in variant
    ensures MapToFullVariant(defaults, MapToFullVariant(defaults, variant)) == MapToFullVariant(defaults, variant)
  {
  }
}
