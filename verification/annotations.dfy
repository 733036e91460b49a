/**
 * `annotations.rs`: turning a metadata annotation element into a typed
 * annotation value, chosen by the name of the annotation's class.
 *
 * Period, Threshold, Cutoff and Throttle share one shape, a keyword or
 * "count, separator, unit" or verbatim text, modelled once as `TimedValue`:
 * Period's keyword is `everyChunk`, Cutoff's `infinity`, Throttle's `off`
 * (with `/` as separator), and Threshold has none.
 */
module Annotations {
  import opened Ints
  import opened Errors
  import Text
  import Units
  import MetadataElements

  type AnnotationElement = MetadataElements.AnnotationElement
  type ClassElement = MetadataElements.ClassElement
  type Pairs = MetadataElements.Pairs

  /** Period, Threshold, Cutoff and Throttle: the keyword, an amount of a unit, or `Other(text)` when there is no separator. */
  datatype TimedValue = Keyword | Amount(quantity: Units.Quantity) | Other(text: string)

  datatype DataAmountUnit = Bits | Bytes | DataAmountOther(text: string)

  datatype TimespanUnit = Ticks | Seconds | Milliseconds | Microseconds | Nanoseconds | TimespanOther(text: string)

  datatype TimestampUnit = MillisecondsSinceEpoch | TimestampTicks | TimestampOther(text: string)

  /** `AnnotationValue`: one variant per known annotation class, and `Unknown` keeping the raw values. */
  datatype AnnotationValue =
    | BooleanFlag(flag: bool)
    | Category(categories: seq<string>)
    | ContentType
    | DataAmount(dataAmount: DataAmountUnit)
    | Description(description: string)
    | Enabled(enabled: bool)
    | Experimental(experimental: bool)
    | Frequency
    | Label(labelText: string)
    | MemoryAddress
    | MetadataDefinition
    | Name(name: string)
    | Percentage
    | Period(period: TimedValue)
    | Registered(registered: bool)
    | Relational
    | SettingDefinition
    | StackTrace(stackTrace: bool)
    | Threshold(threshold: TimedValue)
    | Timespan(timespan: TimespanUnit)
    | Timestamp(timestamp: TimestampUnit)
    | TransitionFrom
    | TransitionTo
    | Unsigned
    | Cutoff(cutoff: TimedValue)
    | Mirror
    | Throttle(throttle: TimedValue)
    | Unknown(values: Pairs)
  {
    /** `is_builtin`. */
    predicate IsBuiltin()
    {
      !Unknown?
    }
  }

  /** The first value of the element, or an `AnnotationParse` error with the "lacks" message. */
  function FirstValue(el: AnnotationElement, lacks: string): (r: Result<string>)
    ensures r.Ok? <==> |el.values| > 0
    ensures r.Ok? ==> r.value == el.values[0].1
    ensures r.Err? ==> r.error == AnnotationParse(lacks)
  {
    if |el.values| == 0 then Err(AnnotationParse(lacks)) else Ok(el.values[0].1)
  }

  // Timed values

  /**
   * The text after the first value is taken: the keyword; else the part
   * before the first `sep` as a `u64` and the part after as a unit; no
   * `sep` at all is `Other`. `owner` names the annotation in the integer
   * error and `unitOwner` in the unit error.
   */
  function ReadTimed(owner: string, unitOwner: string, keyword: Option<string>, sep: char, value: string): (r: Result<TimedValue>)
    ensures keyword.Some? && value == keyword.value ==> r == Ok(Keyword)
    ensures r == Ok(Keyword) ==> keyword == Some(value)
    ensures r.Ok? && r.value.Other? <==> keyword != Some(value) && sep !in value
    ensures r.Ok? && r.value.Other? ==> r.value.text == value
    ensures r.Ok? && r.value.Amount? ==> exists a ::
      (value == a + [sep] + Units.UnitSymbol(r.value.quantity.unit) && Text.ParseU64(a) == Some(r.value.quantity.count))
    ensures r.Err? ==> r.error.AnnotationParse? && sep in value
  {
    if keyword.Some? && value == keyword.value then Ok(Keyword)
    else
      match Units.ParseQuantity(value, sep)
      case NoSeparator => Ok(Other(value))
      case BadCount(k) => Err(AnnotationParse(owner + " failed to parse integer: " + Units.IntErrorText(k)))
      case BadUnit(u) => Err(AnnotationParse(unitOwner + " has invalid unit: " + u))
      case Parsed(q) => Ok(Amount(q))
  }

  /** The text a timed value is written as. */
  function TimedText(keyword: Option<string>, sep: char, t: TimedValue): string
  {
    match t
    case Keyword => if keyword.Some? then keyword.value else ""
    case Amount(q) => Text.ShowNat(q.count) + [sep] + Units.UnitSymbol(q.unit)
    case Other(text) => text
  }

  /** A timed value that has a text form reading back as itself. */
  predicate WellFormedTimed(keyword: Option<string>, sep: char, t: TimedValue)
  {
    match t
    case Keyword => keyword.Some?
    case Amount(_) => true
    case Other(text) => sep !in text && keyword != Some(text)
  }

  /** Writing a timed value out and reading it back gives it back. */
  lemma ReadTimedText(owner: string, unitOwner: string, keyword: Option<string>, sep: char, t: TimedValue)
    requires !Text.IsDigit(sep)
    requires keyword.Some? ==> sep !in keyword.value
    requires WellFormedTimed(keyword, sep, t)
    ensures ReadTimed(owner, unitOwner, keyword, sep, TimedText(keyword, sep, t)) == Ok(t)
  {
    if t.Amount? {
      var text := TimedText(keyword, sep, t);
      var a := Text.ShowNat(t.quantity.count);
      assert text[|a|] == sep;
      Units.QuantityRoundTrip(t.quantity, sep);
    }
  }

  /** `Period::from_element`. */
  function PeriodFromElement(el: AnnotationElement): (r: Result<TimedValue>)
    ensures |el.values| == 0 ==> r == Err(AnnotationParse("jdk.jfr.Period lacks value"))
    ensures r.Err? ==> r.error.AnnotationParse?
    ensures |el.values| > 0 ==> (r == Ok(Keyword) <==> el.values[0].1 == "everyChunk")
    ensures r.Ok? && r.value.Other? <==> |el.values| > 0 && el.values[0].1 != "everyChunk" && ' ' !in el.values[0].1
  {
    var value :- FirstValue(el, "jdk.jfr.Period lacks value");
    ReadTimed("jdk.jfr.Period", "jdk.jfr.Period", Some("everyChunk"), ' ', value)
  }

  /** `Threshold::from_element`: as Period, without a keyword. */
  function ThresholdFromElement(el: AnnotationElement): (r: Result<TimedValue>)
    ensures |el.values| == 0 ==> r == Err(AnnotationParse("jdk.jfr.Threshold lacks value"))
    ensures r.Err? ==> r.error.AnnotationParse?
    ensures r.Ok? ==> !r.value.Keyword?
    ensures r.Ok? && r.value.Other? <==> |el.values| > 0 && ' ' !in el.values[0].1
  {
    var value :- FirstValue(el, "jdk.jfr.Threshold lacks value");
    ReadTimed("jdk.jfr.Threshold", "jdk.jfr.Threshold", None, ' ', value)
  }

  /** `Cutoff::from_element`: as Period, with the keyword `infinity`. */
  function CutoffFromElement(el: AnnotationElement): (r: Result<TimedValue>)
    ensures |el.values| == 0 ==> r == Err(AnnotationParse("jdk.jfr.internal.Cutoff lacks value"))
    ensures r.Err? ==> r.error.AnnotationParse?
    ensures |el.values| > 0 ==> (r == Ok(Keyword) <==> el.values[0].1 == "infinity")
    ensures r.Ok? && r.value.Other? <==> |el.values| > 0 && el.values[0].1 != "infinity" && ' ' !in el.values[0].1
  {
    var value :- FirstValue(el, "jdk.jfr.internal.Cutoff lacks value");
    ReadTimed("jdk.jfr.internal.Cutoff", "jdk.jfr.internal.Cutoff", Some("infinity"), ' ', value)
  }

  /**
   * `Throttle::from_element`: keyword `off`, separator `/`; its unit error
   * names `jdk.jfr.internal.Cutoff`, as the code writes it.
   */
  function ThrottleFromElement(el: AnnotationElement): (r: Result<TimedValue>)
    ensures |el.values| == 0 ==> r == Err(AnnotationParse("jdk.jfr.internal.Throttle lacks value"))
    ensures r.Err? ==> r.error.AnnotationParse?
    ensures |el.values| > 0 ==> (r == Ok(Keyword) <==> el.values[0].1 == "off")
    ensures r.Ok? && r.value.Other? <==> |el.values| > 0 && el.values[0].1 != "off" && '/' !in el.values[0].1
  {
    var value :- FirstValue(el, "jdk.jfr.internal.Throttle lacks value");
    ReadTimed("jdk.jfr.internal.Throttle", "jdk.jfr.internal.Cutoff", Some("off"), '/', value)
  }

  /** An element carrying `text` as its only value. */
  function Single(typeId: I64, text: string): AnnotationElement
  {
    MetadataElements.AnnotationElement(typeId, [("value", text)])
  }

  /** Every well-formed period written out reads back, keyword and amounts included. */
  lemma PeriodRoundTrip(typeId: I64, t: TimedValue)
    requires WellFormedTimed(Some("everyChunk"), ' ', t)
    ensures PeriodFromElement(Single(typeId, TimedText(Some("everyChunk"), ' ', t))) == Ok(t)
  {
    ReadTimedText("jdk.jfr.Period", "jdk.jfr.Period", Some("everyChunk"), ' ', t);
  }

  lemma ThresholdRoundTrip(typeId: I64, t: TimedValue)
    requires WellFormedTimed(None, ' ', t)
    ensures ThresholdFromElement(Single(typeId, TimedText(None, ' ', t))) == Ok(t)
  {
    ReadTimedText("jdk.jfr.Threshold", "jdk.jfr.Threshold", None, ' ', t);
  }

  lemma CutoffRoundTrip(typeId: I64, t: TimedValue)
    requires WellFormedTimed(Some("infinity"), ' ', t)
    ensures CutoffFromElement(Single(typeId, TimedText(Some("infinity"), ' ', t))) == Ok(t)
  {
    ReadTimedText("jdk.jfr.internal.Cutoff", "jdk.jfr.internal.Cutoff", Some("infinity"), ' ', t);
  }

  lemma ThrottleRoundTrip(typeId: I64, t: TimedValue)
    requires WellFormedTimed(Some("off"), '/', t)
    ensures ThrottleFromElement(Single(typeId, TimedText(Some("off"), '/', t))) == Ok(t)
  {
    ReadTimedText("jdk.jfr.internal.Throttle", "jdk.jfr.internal.Cutoff", Some("off"), '/', t);
  }

  // Keyword values

  /** The keyword each `DataAmount` variant is written as. */
  function DataAmountText(d: DataAmountUnit): string
  {
    match d
    case Bits => "BITS"
    case Bytes => "BYTES"
    case DataAmountOther(text) => text
  }

  /** `DataAmount::from_element`: never fails once a value is present, and the result writes back as that value. */
  function DataAmountFromElement(el: AnnotationElement): (r: Result<DataAmountUnit>)
    ensures r.Ok? <==> |el.values| > 0
    ensures r.Err? ==> r.error == AnnotationParse("jdk.jfr.DataAmount lacks a value")
    ensures r.Ok? ==> DataAmountText(r.value) == el.values[0].1
    ensures r.Ok? && r.value.DataAmountOther? <==> r.Ok? && el.values[0].1 !in {"BITS", "BYTES"}
  {
    var value :- FirstValue(el, "jdk.jfr.DataAmount lacks a value");
    if value == "BITS" then Ok(Bits)
    else if value == "BYTES" then Ok(Bytes)
    else Ok(DataAmountOther(value))
  }

  function TimespanText(t: TimespanUnit): string
  {
    match t
    case Ticks => "TICKS"
    case Seconds => "SECONDS"
    case Milliseconds => "MILLISECONDS"
    case Microseconds => "MICROSECONDS"
    case Nanoseconds => "NANOSECONDS"
    case TimespanOther(text) => text
  }

  /** `Timespan::from_element`. */
  function TimespanFromElement(el: AnnotationElement): (r: Result<TimespanUnit>)
    ensures r.Ok? <==> |el.values| > 0
    ensures r.Err? ==> r.error == AnnotationParse("jdk.jfr.Timespan lacks value")
    ensures r.Ok? ==> TimespanText(r.value) == el.values[0].1
    ensures r.Ok? && r.value.TimespanOther? <==>
      r.Ok? && el.values[0].1 !in {"TICKS", "SECONDS", "MILLISECONDS", "MICROSECONDS", "NANOSECONDS"}
  {
    var value :- FirstValue(el, "jdk.jfr.Timespan lacks value");
    if value == "TICKS" then Ok(Ticks)
    else if value == "SECONDS" then Ok(Seconds)
    else if value == "MILLISECONDS" then Ok(Milliseconds)
    else if value == "MICROSECONDS" then Ok(Microseconds)
    else if value == "NANOSECONDS" then Ok(Nanoseconds)
    else Ok(TimespanOther(value))
  }

  function TimestampText(t: TimestampUnit): string
  {
    match t
    case MillisecondsSinceEpoch => "MILLISECONDS_SINCE_EPOCH"
    case TimestampTicks => "TICKS"
    case TimestampOther(text) => text
  }

  /** `Timestamp::from_element`. */
  function TimestampFromElement(el: AnnotationElement): (r: Result<TimestampUnit>)
    ensures r.Ok? <==> |el.values| > 0
    ensures r.Err? ==> r.error == AnnotationParse("jdk.jfr.Timestamp lacks value")
    ensures r.Ok? ==> TimestampText(r.value) == el.values[0].1
    ensures r.Ok? && r.value.TimestampOther? <==> r.Ok? && el.values[0].1 !in {"MILLISECONDS_SINCE_EPOCH", "TICKS"}
  {
    var value :- FirstValue(el, "jdk.jfr.Timestamp lacks value");
    if value == "MILLISECONDS_SINCE_EPOCH" then Ok(MillisecondsSinceEpoch)
    else if value == "TICKS" then Ok(TimestampTicks)
    else Ok(TimestampOther(value))
  }

  /** `Enabled::from_element`: only `true` and `false` are accepted. */
  function EnabledFromElement(el: AnnotationElement): (r: Result<bool>)
    ensures |el.values| == 0 ==> r == Err(AnnotationParse("jdk.jfr.Enabled lacks a value"))
    ensures r.Ok? <==> |el.values| > 0 && el.values[0].1 in {"true", "false"}
    ensures r.Ok? ==> (r.value <==> el.values[0].1 == "true")
    ensures |el.values| > 0 && r.Err? ==> r.error == AnnotationParse("jdk.jfr.Enabled illegal value: " + el.values[0].1)
  {
    var value :- FirstValue(el, "jdk.jfr.Enabled lacks a value");
    if value == "true" then Ok(true)
    else if value == "false" then Ok(false)
    else Err(AnnotationParse("jdk.jfr.Enabled illegal value: " + value))
  }

  /** `Category::from_element`: every value, in order, keys dropped. */
  function CategoryFromElement(el: AnnotationElement): (r: seq<string>)
    ensures |r| == |el.values|
    ensures forall i :: 0 <= i < |r| ==> r[i] == el.values[i].1
  {
    seq(|el.values|, i requires 0 <= i < |el.values| => el.values[i].1)
  }

  // Dispatch

  /** The `from_*` parser functions `resolve_parser` hands out. */
  datatype Parser =
    | FromBooleanFlag | FromCategory | FromContentType | FromDataAmount | FromDescription
    | FromEnabled | FromExperimental | FromFrequency | FromLabel | FromMemoryAddress
    | FromMetadataDefinition | FromName | FromPercentage | FromPeriod | FromRegistered
    | FromRelational | FromSettingDefinition | FromStackTrace | FromThreshold | FromTimespan
    | FromTimestamp | FromTransitionFrom | FromTransitionTo | FromUnsigned | FromCutoff
    | FromMirror | FromThrottle | FromUnknown

  /** The class name each builtin parser is registered under. */
  function ParserName(p: Parser): string
    requires !p.FromUnknown?
  {
    match p
    case FromBooleanFlag => "jdk.jfr.BooleanFlag"
    case FromCategory => "jdk.jfr.Category"
    case FromContentType => "jdk.jfr.ContentType"
    case FromDataAmount => "jdk.jfr.DataAmount"
    case FromDescription => "jdk.jfr.Description"
    case FromEnabled => "jdk.jfr.Enabled"
    case FromExperimental => "jdk.jfr.Experimental"
    case FromFrequency => "jdk.jfr.Frequency"
    case FromLabel => "jdk.jfr.Label"
    case FromMemoryAddress => "jdk.jfr.MemoryAddress"
    case FromMetadataDefinition => "jdk.jfr.MetadataDefinition"
    case FromName => "jdk.jfr.Name"
    case FromPercentage => "jdk.jfr.Percentage"
    case FromPeriod => "jdk.jfr.Period"
    case FromRegistered => "jdk.jfr.Registered"
    case FromRelational => "jdk.jfr.Relational"
    case FromSettingDefinition => "jdk.jfr.SettingDefinition"
    case FromStackTrace => "jdk.jfr.StackTrace"
    case FromThreshold => "jdk.jfr.Threshold"
    case FromTimespan => "jdk.jfr.Timespan"
    case FromTimestamp => "jdk.jfr.Timestamp"
    case FromTransitionFrom => "jdk.jfr.TransitionFrom"
    case FromTransitionTo => "jdk.jfr.TransitionTo"
    case FromUnsigned => "jdk.jfr.Unsigned"
    case FromCutoff => "jdk.jfr.internal.Cutoff"
    case FromMirror => "jdk.jfr.internal.Mirror"
    case FromThrottle => "jdk.jfr.internal.Throttle"
  }

  /** The class names with a parser of their own: the 27 names `ParserName` lists. */
  ghost predicate IsBuiltinName(className: string)
  {
    exists p: Parser :: !p.FromUnknown? && ParserName(p) == className
  }

  /** The arms of `resolve_parser`'s match, in source order. */
  const Builtins: seq<Parser> := [
    FromBooleanFlag, FromCategory, FromContentType, FromDataAmount, FromDescription,
    FromEnabled, FromExperimental, FromFrequency, FromLabel, FromMemoryAddress,
    FromMetadataDefinition, FromName, FromPercentage, FromPeriod, FromRegistered,
    FromRelational, FromSettingDefinition, FromStackTrace, FromThreshold, FromTimespan,
    FromTimestamp, FromTransitionFrom, FromTransitionTo, FromUnsigned, FromCutoff,
    FromMirror, FromThrottle]

  /** Every parser but `from_unknown` has an arm. */
  lemma BuiltinsComplete(p: Parser)
    ensures p in Builtins <==> !p.FromUnknown?
  {
  }

  /** The first arm from `i` on whose name is `className`, or `from_unknown`. */
  function FindArm(className: string, i: nat): (p: Parser)
    requires i <= |Builtins|
    ensures !p.FromUnknown? ==> ParserName(p) == className
    ensures p.FromUnknown? <==> forall j :: i <= j < |Builtins| ==> ParserName(Builtins[j]) != className
    decreases |Builtins| - i
  {
    if i == |Builtins| then FromUnknown
    else if ParserName(Builtins[i]) == className then Builtins[i]
    else FindArm(className, i + 1)
  }

  /**
   * `resolve_parser`: whether the class name is known, and the parser for
   * it (`from_unknown` when not). The first matching arm wins, as in a `match`.
   */
  function ResolveParser(className: string): (r: (bool, Parser))
    ensures r.0 <==> !r.1.FromUnknown?
    ensures r.0 ==> ParserName(r.1) == className
    ensures r.0 <==> IsBuiltinName(className)
  {
    var p := FindArm(className, 0);
    if !p.FromUnknown? then (true, p)
    else
      assert !IsBuiltinName(className) by {
        forall q: Parser | !q.FromUnknown?
          ensures ParserName(q) != className
        {
          BuiltinsComplete(q);
        }
      }
      (false, FromUnknown)
  }

  /** The variant of `AnnotationValue` each parser produces. */
  predicate Produces(p: Parser, v: AnnotationValue)
  {
    match p
    case FromBooleanFlag => v.BooleanFlag?
    case FromCategory => v.Category?
    case FromContentType => v.ContentType?
    case FromDataAmount => v.DataAmount?
    case FromDescription => v.Description?
    case FromEnabled => v.Enabled?
    case FromExperimental => v.Experimental?
    case FromFrequency => v.Frequency?
    case FromLabel => v.Label?
    case FromMemoryAddress => v.MemoryAddress?
    case FromMetadataDefinition => v.MetadataDefinition?
    case FromName => v.Name?
    case FromPercentage => v.Percentage?
    case FromPeriod => v.Period?
    case FromRegistered => v.Registered?
    case FromRelational => v.Relational?
    case FromSettingDefinition => v.SettingDefinition?
    case FromStackTrace => v.StackTrace?
    case FromThreshold => v.Threshold?
    case FromTimespan => v.Timespan?
    case FromTimestamp => v.Timestamp?
    case FromTransitionFrom => v.TransitionFrom?
    case FromTransitionTo => v.TransitionTo?
    case FromUnsigned => v.Unsigned?
    case FromCutoff => v.Cutoff?
    case FromMirror => v.Mirror?
    case FromThrottle => v.Throttle?
    case FromUnknown => v.Unknown?
  }

  /** The parsers that read the element's first value (and fail without one). */
  predicate ReadsValue(p: Parser)
  {
    p.FromDataAmount? || p.FromDescription? || p.FromEnabled? || p.FromLabel? || p.FromName?
    || p.FromPeriod? || p.FromThreshold? || p.FromTimespan? || p.FromTimestamp? || p.FromCutoff?
    || p.FromThrottle?
  }

  /**
   * The parsers of annotations whose value carries no text: flags are
   * `true` whatever the element holds, markers carry nothing, Category
   * keeps every value and `from_unknown` the raw pairs. None fails.
   */
  function ApplyFixed(p: Parser, el: AnnotationElement): (r: AnnotationValue)
    requires !ReadsValue(p)
    ensures Produces(p, r)
  {
    match p
    case FromBooleanFlag => BooleanFlag(true)
    case FromCategory => Category(CategoryFromElement(el))
    case FromContentType => ContentType
    case FromExperimental => Experimental(true)
    case FromFrequency => Frequency
    case FromMemoryAddress => MemoryAddress
    case FromMetadataDefinition => MetadataDefinition
    case FromPercentage => Percentage
    case FromRegistered => Registered(true)
    case FromRelational => Relational
    case FromSettingDefinition => SettingDefinition
    case FromStackTrace => StackTrace(true)
    case FromTransitionFrom => TransitionFrom
    case FromTransitionTo => TransitionTo
    case FromUnsigned => Unsigned
    case FromMirror => Mirror
    case FromUnknown => AnnotationValue.Unknown(el.values)
  }

  /** Period, Threshold, Cutoff and Throttle. */
  predicate ReadsTimed(p: Parser)
  {
    p.FromPeriod? || p.FromThreshold? || p.FromCutoff? || p.FromThrottle?
  }

  /** The timed parsers: the first value read as a keyword, an amount or other text. */
  function ApplyTimed(p: Parser, el: AnnotationElement): (r: Result<AnnotationValue>)
    requires ReadsTimed(p)
    ensures r.Ok? ==> Produces(p, r.value)
    ensures |el.values| == 0 ==> r.Err?
    ensures r.Err? ==> r.error.AnnotationParse?
  {
    match p
    case FromPeriod =>
      var t :- PeriodFromElement(el);
      Ok(Period(t))
    case FromThreshold =>
      var t :- ThresholdFromElement(el);
      Ok(Threshold(t))
    case FromCutoff =>
      var t :- CutoffFromElement(el);
      Ok(Cutoff(t))
    case FromThrottle =>
      var t :- ThrottleFromElement(el);
      Ok(Throttle(t))
  }

  /** The other parsers that read the element's first value, failing without one. */
  function ApplyText(p: Parser, el: AnnotationElement): (r: Result<AnnotationValue>)
    requires ReadsValue(p) && !ReadsTimed(p)
    ensures r.Ok? ==> Produces(p, r.value)
    ensures |el.values| == 0 ==> r.Err?
    ensures r.Err? ==> r.error.AnnotationParse?
  {
    match p
    case FromDataAmount =>
      var d :- DataAmountFromElement(el);
      Ok(DataAmount(d))
    case FromDescription =>
      var text :- FirstValue(el, "jdk.jfr.Description lacks a value");
      Ok(Description(text))
    case FromEnabled =>
      var b :- EnabledFromElement(el);
      Ok(Enabled(b))
    case FromLabel =>
      var text :- FirstValue(el, "jdk.jfr.Label lacks a value");
      Ok(Label(text))
    case FromName =>
      var text :- FirstValue(el, "jdk.jfr.Name lacks a value");
      Ok(Name(text))
    case FromTimespan =>
      var t :- TimespanFromElement(el);
      Ok(Timespan(t))
    case FromTimestamp =>
      var t :- TimestampFromElement(el);
      Ok(Timestamp(t))
  }

  /** Running a parser on an element: only the value-reading parsers can fail. */
  function Apply(p: Parser, el: AnnotationElement): (r: Result<AnnotationValue>)
    ensures r.Ok? ==> Produces(p, r.value)
    ensures !ReadsValue(p) ==> r.Ok?
    ensures ReadsValue(p) && |el.values| == 0 ==> r.Err?
    ensures r.Err? ==> r.error.AnnotationParse?
  {
    if ReadsTimed(p) then ApplyTimed(p, el)
    else if ReadsValue(p) then ApplyText(p, el)
    else Ok(ApplyFixed(p, el))
  }

  /**
   * `AnnotationValue::from_elements`: the annotation must name the class by
   * id; the class's name then picks the parser.
   */
  function FromElements(annotation: AnnotationElement, c: ClassElement): (r: Result<AnnotationValue>)
    ensures annotation.typeId != c.id ==>
      r == Err(AnnotationParse("class id mismatch: " + Text.ShowInt(annotation.typeId) + " != " + Text.ShowInt(c.id)))
    ensures annotation.typeId == c.id && !ResolveParser(c.name).0 ==> r == Ok(AnnotationValue.Unknown(annotation.values))
    ensures r.Ok? ==> (r.value.IsBuiltin() <==> ResolveParser(c.name).0)
    ensures r.Ok? ==> annotation.typeId == c.id && Produces(ResolveParser(c.name).1, r.value)
  {
    if annotation.typeId != c.id then
      Err(AnnotationParse("class id mismatch: " + Text.ShowInt(annotation.typeId) + " != " + Text.ShowInt(c.id)))
    else
      Apply(ResolveParser(c.name).1, annotation)
  }
}
