/**
 * `settings.rs`: the default value of a setting element parsed by the
 * parser its name selects. Unlike the annotation parsers, a value without
 * the separator is an error here, never a verbatim fallback; Period and
 * Throttle report a bad count or unit as an annotation error, as the code
 * does.
 */
module Settings {
  import opened Errors
  import Text
  import Units
  import MetadataElements

  type SettingElement = MetadataElements.SettingElement

  datatype TimespanWithInfinity = Infinity | Timespan(quantity: Units.Quantity)

  datatype PeriodSetting = EveryChunk | BeginChunk | EndChunk | PeriodAmount(quantity: Units.Quantity)

  datatype ThrottleSetting = Off | ThrottleAmount(quantity: Units.Quantity)

  /** `SettingValue`: one variant per known setting, `Unknown` keeping the default value as text. */
  datatype SettingValue =
    | Cutoff(cutoff: TimespanWithInfinity)
    | Enabled(enabled: bool)
    | Period(period: PeriodSetting)
    | StackTrace(stackTrace: bool)
    | Threshold(threshold: TimespanWithInfinity)
    | Throttle(throttle: ThrottleSetting)
    | Unknown(defaultValue: string)

  /** The text of an amount: the count in decimal, the separator, the unit symbol. */
  function AmountText(q: Units.Quantity, sep: char): (r: string)
    ensures |r| > |Text.ShowNat(q.count)| && r[|Text.ShowNat(q.count)|] == sep
  {
    Text.ShowNat(q.count) + [sep] + Units.UnitSymbol(q.unit)
  }

  /** `TimespanWithInfinity::from_str`: `infinity`, or a count and a unit separated by a space. */
  function TimespanFromStr(s: string): (r: Result<TimespanWithInfinity>)
    ensures r == Ok(Infinity) <==> s == "infinity"
    ensures s != "infinity" && ' ' !in s ==> r == Err(SettingParse("timespan has invalid format: " + s))
    ensures r.Err? ==> r.error.SettingParse?
    ensures r.Ok? && r.value.Timespan? ==> exists a ::
      (s == a + " " + Units.UnitSymbol(r.value.quantity.unit) && Text.ParseU64(a) == Some(r.value.quantity.count))
  {
    if s == "infinity" then Ok(Infinity)
    else
      match Units.ParseQuantity(s, ' ')
      case NoSeparator => Err(SettingParse("timespan has invalid format: " + s))
      case BadCount(k) => Err(SettingParse("failed to parse timespan integer: " + Units.IntErrorText(k)))
      case BadUnit(u) => Err(SettingParse("timespan has invalid unit: " + u))
      case Parsed(q) => Ok(Timespan(q))
  }

  function TimespanText(t: TimespanWithInfinity): string
  {
    match t
    case Infinity => "infinity"
    case Timespan(q) => AmountText(q, ' ')
  }

  /** Every timespan written out reads back as itself. */
  lemma TimespanRoundTrip(t: TimespanWithInfinity)
    ensures TimespanFromStr(TimespanText(t)) == Ok(t)
  {
    if t.Timespan? {
      Units.QuantityRoundTrip(t.quantity, ' ');
      assert TimespanText(t) != "infinity" by {
        assert ' ' !in "infinity";
      }
    }
  }

  /** `Enabled::from_str` and `StackTrace::from_str`: exactly `true` and `false`. */
  function BoolFromStr(owner: string, s: string): (r: Result<bool>)
    ensures r.Ok? <==> s == "true" || s == "false"
    ensures r.Ok? ==> (r.value <==> s == "true")
    ensures r.Err? ==> r.error == SettingParse(owner + " illegal value: " + s)
  {
    if s == "true" then Ok(true)
    else if s == "false" then Ok(false)
    else Err(SettingParse(owner + " illegal value: " + s))
  }

  /**
   * `Period::from_str`: one of three keywords, or a count and a unit
   * separated by a space. A missing space is a setting error; a bad count
   * or unit is an annotation error.
   */
  function PeriodFromStr(s: string): (r: Result<PeriodSetting>)
    ensures r == Ok(EveryChunk) <==> s == "everyChunk"
    ensures r == Ok(BeginChunk) <==> s == "beginChunk"
    ensures r == Ok(EndChunk) <==> s == "endChunk"
    ensures s !in {"everyChunk", "beginChunk", "endChunk"} && ' ' !in s ==>
      r == Err(SettingParse("jdk.jfr.setting.Period illegal format: " + s))
    ensures r.Err? && ' ' in s ==> r.error.AnnotationParse?
    ensures r.Ok? && r.value.PeriodAmount? ==> exists a ::
      (s == a + " " + Units.UnitSymbol(r.value.quantity.unit) && Text.ParseU64(a) == Some(r.value.quantity.count))
  {
    if s == "everyChunk" then Ok(EveryChunk)
    else if s == "beginChunk" then Ok(BeginChunk)
    else if s == "endChunk" then Ok(EndChunk)
    else
      match Units.ParseQuantity(s, ' ')
      case NoSeparator => Err(SettingParse("jdk.jfr.setting.Period illegal format: " + s))
      case BadCount(k) => Err(AnnotationParse("jdk.jfr.setting.Period failed to parse integer: " + Units.IntErrorText(k)))
      case BadUnit(u) => Err(AnnotationParse("jdk.jfr.setting.Period has invalid unit: " + u))
      case Parsed(q) => Ok(PeriodAmount(q))
  }

  function PeriodText(p: PeriodSetting): string
  {
    match p
    case EveryChunk => "everyChunk"
    case BeginChunk => "beginChunk"
    case EndChunk => "endChunk"
    case PeriodAmount(q) => AmountText(q, ' ')
  }

  lemma PeriodRoundTrip(p: PeriodSetting)
    ensures PeriodFromStr(PeriodText(p)) == Ok(p)
  {
    if p.PeriodAmount? {
      Units.QuantityRoundTrip(p.quantity, ' ');
      assert ' ' !in "everyChunk" && ' ' !in "beginChunk" && ' ' !in "endChunk";
    }
  }

  /**
   * `Throttle::from_str`: `off`, or a count and a unit separated by `/`. A
   * missing `/` is a setting error; a bad count or unit is an annotation error.
   */
  function ThrottleFromStr(s: string): (r: Result<ThrottleSetting>)
    ensures r == Ok(Off) <==> s == "off"
    ensures s != "off" && '/' !in s ==> r == Err(SettingParse("jdk.jfr.setting.Throttle has invalid format: " + s))
    ensures r.Err? && '/' in s ==> r.error.AnnotationParse?
    ensures r.Ok? && r.value.ThrottleAmount? ==> exists a ::
      (s == a + "/" + Units.UnitSymbol(r.value.quantity.unit) && Text.ParseU64(a) == Some(r.value.quantity.count))
  {
    if s == "off" then Ok(Off)
    else
      match Units.ParseQuantity(s, '/')
      case NoSeparator => Err(SettingParse("jdk.jfr.setting.Throttle has invalid format: " + s))
      case BadCount(k) => Err(AnnotationParse("jdk.jfr.setting.Throttle failed to parse integer: " + Units.IntErrorText(k)))
      case BadUnit(u) => Err(AnnotationParse("jdk.jfr.setting.Throttle has invalid unit: " + u))
      case Parsed(q) => Ok(ThrottleAmount(q))
  }

  function ThrottleText(t: ThrottleSetting): string
  {
    match t
    case Off => "off"
    case ThrottleAmount(q) => AmountText(q, '/')
  }

  lemma ThrottleRoundTrip(t: ThrottleSetting)
    ensures ThrottleFromStr(ThrottleText(t)) == Ok(t)
  {
    if t.ThrottleAmount? {
      Units.QuantityRoundTrip(t.quantity, '/');
      assert '/' !in "off";
    }
  }

  /** The `from_*` functions `resolve_parser` hands out. */
  datatype Parser = FromCutoff | FromEnabled | FromPeriod | FromStackTrace | FromThreshold | FromThrottle | FromUnknown

  /** The setting name each known parser is registered under. */
  function ParserName(p: Parser): string
    requires !p.FromUnknown?
  {
    match p
    case FromCutoff => "cutoff"
    case FromEnabled => "enabled"
    case FromPeriod => "period"
    case FromStackTrace => "stackTrace"
    case FromThreshold => "threshold"
    case FromThrottle => "throttle"
  }

  /** `resolve_parser`: whether the setting name is known, and its parser (`from_unknown` when not). */
  function ResolveParser(name: string): (r: (bool, Parser))
    ensures r.0 <==> name in {"cutoff", "enabled", "period", "stackTrace", "threshold", "throttle"}
    ensures r.0 <==> !r.1.FromUnknown?
    ensures r.0 ==> ParserName(r.1) == name
  {
    if name == "cutoff" then (true, FromCutoff)
    else if name == "enabled" then (true, FromEnabled)
    else if name == "period" then (true, FromPeriod)
    else if name == "stackTrace" then (true, FromStackTrace)
    else if name == "threshold" then (true, FromThreshold)
    else if name == "throttle" then (true, FromThrottle)
    else (false, FromUnknown)
  }

  /** The variant each parser produces. */
  predicate Produces(p: Parser, v: SettingValue)
  {
    match p
    case FromCutoff => v.Cutoff?
    case FromEnabled => v.Enabled?
    case FromPeriod => v.Period?
    case FromStackTrace => v.StackTrace?
    case FromThreshold => v.Threshold?
    case FromThrottle => v.Throttle?
    case FromUnknown => v.Unknown?
  }

  /** Running a parser on a setting's default value; `from_unknown` keeps the text and never fails. */
  function Apply(p: Parser, setting: SettingElement): (r: Result<SettingValue>)
    ensures r.Ok? ==> Produces(p, r.value)
    ensures p.FromUnknown? ==> r == Ok(SettingValue.Unknown(setting.defaultValue))
  {
    var s := setting.defaultValue;
    match p
    case FromCutoff =>
      var t :- TimespanFromStr(s);
      Ok(Cutoff(t))
    case FromEnabled =>
      var b :- BoolFromStr("jdk.jfr.setting.Enabled", s);
      Ok(Enabled(b))
    case FromPeriod =>
      var t :- PeriodFromStr(s);
      Ok(Period(t))
    case FromStackTrace =>
      var b :- BoolFromStr("jdk.jfr.setting.StackTrace", s);
      Ok(StackTrace(b))
    case FromThreshold =>
      var t :- TimespanFromStr(s);
      Ok(Threshold(t))
    case FromThrottle =>
      var t :- ThrottleFromStr(s);
      Ok(Throttle(t))
    case FromUnknown => Ok(SettingValue.Unknown(s))
  }

  /** `SettingValue::from_element`: the setting's name picks the parser of its default value. */
  function FromElement(setting: SettingElement): (r: Result<SettingValue>)
    ensures !ResolveParser(setting.name).0 ==> r == Ok(SettingValue.Unknown(setting.defaultValue))
    ensures r.Ok? ==> Produces(ResolveParser(setting.name).1, r.value)
    ensures r.Ok? && !r.value.Unknown? ==> ResolveParser(setting.name).0
  {
    Apply(ResolveParser(setting.name).1, setting)
  }

  /** The parser that produces a known value. */
  function ParserOf(v: SettingValue): (p: Parser)
    ensures Produces(p, v)
  {
    match v
    case Cutoff(_) => FromCutoff
    case Enabled(_) => FromEnabled
    case Period(_) => FromPeriod
    case StackTrace(_) => FromStackTrace
    case Threshold(_) => FromThreshold
    case Throttle(_) => FromThrottle
    case Unknown(_) => FromUnknown
  }

  /** The default value a known setting value is written as. */
  function ValueText(v: SettingValue): string
  {
    match v
    case Cutoff(t) => TimespanText(t)
    case Enabled(b) => if b then "true" else "false"
    case Period(p) => PeriodText(p)
    case StackTrace(b) => if b then "true" else "false"
    case Threshold(t) => TimespanText(t)
    case Throttle(t) => ThrottleText(t)
    case Unknown(text) => text
  }

  /** Every known parser is found again under its own name. */
  lemma ResolveParserName(p: Parser)
    requires !p.FromUnknown?
    ensures ResolveParser(ParserName(p)) == (true, p)
  {
  }

  /** A known value written out parses back with its own parser. */
  lemma ApplyRoundTrip(setting: SettingElement, v: SettingValue)
    requires setting.defaultValue == ValueText(v)
    ensures Apply(ParserOf(v), setting) == Ok(v)
  {
    match v
    case Cutoff(t) => TimespanRoundTrip(t);
    case Threshold(t) => TimespanRoundTrip(t);
    case Period(p) => PeriodRoundTrip(p);
    case Throttle(t) => ThrottleRoundTrip(t);
    case Enabled(_) =>
    case StackTrace(_) =>
    case Unknown(_) =>
  }

  /**
   * A setting element named for a known value's parser, whose default
   * value is that value written out, parses back to the value.
   */
  lemma FromElementRoundTrip(setting: SettingElement, v: SettingValue)
    requires !v.Unknown?
    requires setting.name == ParserName(ParserOf(v)) && setting.defaultValue == ValueText(v)
    ensures FromElement(setting) == Ok(v)
  {
    ResolveParserName(ParserOf(v));
    ApplyRoundTrip(setting, v);
  }
}
