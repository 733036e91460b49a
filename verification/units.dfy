/**
 * The pieces the annotation and setting parsers share: Rust's
 * `u64::from_str` with the kind of error it reports, the seven time-unit
 * symbols, and the "count, separator, unit" form of `"20 ms"` and `"100/s"`.
 */
module Units {
  import opened Ints
  import opened Errors
  import Text

  /** A time unit as it follows the count: `ns`, `us`, `ms`, `s`, `m`, `h`, `d`. */
  datatype TimeUnit = Nanoseconds | Microseconds | Milliseconds | Seconds | Minutes | Hours | Days

  function UnitSymbol(u: TimeUnit): string
  {
    match u
    case Nanoseconds => "ns"
    case Microseconds => "us"
    case Milliseconds => "ms"
    case Seconds => "s"
    case Minutes => "m"
    case Hours => "h"
    case Days => "d"
  }

  const UnitSymbols: set<string> := {"ns", "us", "ms", "s", "m", "h", "d"}

  /** The `match unit { "ns" => …, … }` arms: the unit a symbol names, if any. */
  function UnitOf(text: string): (r: Option<TimeUnit>)
    ensures r.Some? <==> text in UnitSymbols
    ensures r.Some? ==> UnitSymbol(r.value) == text
  {
    if text == "ns" then Some(Nanoseconds)
    else if text == "us" then Some(Microseconds)
    else if text == "ms" then Some(Milliseconds)
    else if text == "s" then Some(Seconds)
    else if text == "m" then Some(Minutes)
    else if text == "h" then Some(Hours)
    else if text == "d" then Some(Days)
    else None
  }

  /** Every unit is read back from its own symbol. */
  lemma UnitOfSymbol(u: TimeUnit)
    ensures UnitOf(UnitSymbol(u)) == Some(u)
  {
  }

  /** The `IntErrorKind`s `u64::from_str` can report. */
  datatype IntErrorKind = Empty | InvalidDigit | PosOverflow

  /** How `ParseIntError` displays, the `{e}` of the parsers' messages. */
  function IntErrorText(k: IntErrorKind): string
  {
    match k
    case Empty => "cannot parse integer from empty string"
    case InvalidDigit => "invalid digit found in string"
    case PosOverflow => "number too large to fit in target type"
  }

  datatype U64Outcome = U64Value(n: U64) | U64Error(kind: IntErrorKind)

  /**
   * The digit loop of `from_str_radix`: from position `i` with the value of
   * the digits so far in `acc`, the first non-digit is `InvalidDigit` and the
   * first digit that takes the value past `u64::MAX` is `PosOverflow`.
   */
  function DigitScan(d: string, i: nat, acc: U64): (r: U64Outcome)
    requires i <= |d|
    ensures r != U64Error(Empty)
    decreases |d| - i
  {
    if i == |d| then U64Value(acc)
    else if !Text.IsDigit(d[i]) then U64Error(InvalidDigit)
    else
      var v := acc * 10 + (d[i] as int - '0' as int);
      if v >= TWO_64 then U64Error(PosOverflow) else DigitScan(d, i + 1, v)
  }

  /**
   * `u64::from_str`: an empty string is `Empty`; a lone sign is
   * `InvalidDigit`; one leading `+` is skipped; a `-` is not a digit.
   */
  function FromStrU64(s: string): (r: U64Outcome)
    ensures |s| == 0 <==> r == U64Error(Empty)
  {
    if |s| == 0 then U64Error(Empty)
    else if (s[0] == '+' || s[0] == '-') && |s| == 1 then U64Error(InvalidDigit)
    else if s[0] == '+' then DigitScan(s[1..], 0, 0)
    else DigitScan(s, 0, 0)
  }

  lemma DigitsValuePrefix(d: string, i: nat)
    requires i < |d| && Text.AllDigits(d[..i + 1])
    ensures Text.AllDigits(d[..i])
    ensures Text.DigitsValue(d[..i + 1]) == Text.DigitsValue(d[..i]) * 10 + (d[i] as int - '0' as int)
  {
    assert d[..i + 1][..i] == d[..i];
  }

  /** Appending digits never makes the value smaller. */
  lemma {:induction false} DigitsValueGrows(d: string, i: nat, j: nat)
    requires i <= j <= |d| && Text.AllDigits(d[..j])
    ensures Text.AllDigits(d[..i])
    ensures Text.DigitsValue(d[..i]) <= Text.DigitsValue(d[..j])
    decreases j - i
  {
    if i < j {
      DigitsValuePrefix(d, j - 1);
      DigitsValueGrows(d, i, j - 1);
    }
  }

  /**
   * From a position whose prefix is a representable digit string, the scan
   * yields a value exactly when the whole string is digits and fits, and
   * the value is then the decimal value of the whole string.
   */
  lemma {:induction false} DigitScanValue(d: string, i: nat)
    requires i <= |d| && Text.AllDigits(d[..i]) && Text.DigitsValue(d[..i]) < TWO_64
    ensures DigitScan(d, i, Text.DigitsValue(d[..i])).U64Value? <==> Text.AllDigits(d) && Text.DigitsValue(d) < TWO_64
    ensures DigitScan(d, i, Text.DigitsValue(d[..i])).U64Value? ==>
      DigitScan(d, i, Text.DigitsValue(d[..i])).n == Text.DigitsValue(d)
    decreases |d| - i
  {
    assert d[..|d|] == d;
    if i < |d| {
      if Text.IsDigit(d[i]) {
        assert Text.AllDigits(d[..i + 1]) by {
          assert forall k :: 0 <= k < i + 1 ==> d[..i + 1][k] == d[k];
          assert forall k :: 0 <= k < i ==> d[..i][k] == d[k];
        }
        DigitsValuePrefix(d, i);
        if Text.DigitsValue(d[..i + 1]) < TWO_64 {
          DigitScanValue(d, i + 1);
        } else if Text.AllDigits(d) {
          DigitsValueGrows(d, i + 1, |d|);
        }
      } else {
        assert d[i] == d[..|d|][i];
      }
    }
  }

  /** `u64::from_str` yields exactly the values of the decimal reading of the text. */
  lemma FromStrAgrees(s: string)
    ensures FromStrU64(s).U64Value? <==> Text.ParseU64(s).Some?
    ensures FromStrU64(s).U64Value? ==> FromStrU64(s).n == Text.ParseU64(s).value
  {
    if |s| > 0 && !((s[0] == '+' || s[0] == '-') && |s| == 1) {
      var d := if s[0] == '+' then s[1..] else s;
      assert d[..0] == [];
      DigitScanValue(d, 0);
      if s[0] == '-' {
        assert !Text.IsDigit(d[0]);
      }
    }
  }

  /** The decimal text of every 64-bit value reads back as that value. */
  lemma FromStrShow(n: nat)
    requires n < TWO_64
    ensures FromStrU64(Text.ShowNat(n)) == U64Value(n)
  {
    Text.ParseShowInt(n, false, 0, 0xFFFF_FFFF_FFFF_FFFF);
    FromStrAgrees(Text.ShowNat(n));
  }

  /** A count with its unit. */
  datatype Quantity = Quantity(count: U64, unit: TimeUnit)

  /** The four ways reading `"<count><sep><unit>"` can end. */
  datatype QuantityOutcome =
    | NoSeparator
    | BadCount(kind: IntErrorKind)
    | BadUnit(unitText: string)
    | Parsed(quantity: Quantity)

  /**
   * `s.split_once(sep)`, then `u64::from_str` of the part before and the
   * unit match on the part after, in that order: a bad count hides a bad unit.
   */
  function ParseQuantity(s: string, sep: char): (r: QuantityOutcome)
    ensures r.NoSeparator? <==> sep !in s
    ensures r.BadCount? ==> exists a, b :: s == a + [sep] + b && sep !in a && Text.ParseU64(a).None?
    ensures r.BadUnit? ==> r.unitText !in UnitSymbols
    ensures r.BadUnit? ==> exists a :: s == a + [sep] + r.unitText && sep !in a && Text.ParseU64(a).Some?
    ensures r.Parsed? ==> exists a ::
      (s == a + [sep] + UnitSymbol(r.quantity.unit) && sep !in a && Text.ParseU64(a) == Some(r.quantity.count))
  {
    match Text.SplitOnce(s, sep)
    case None => NoSeparator
    case Some((a, b)) =>
      FromStrAgrees(a);
      match FromStrU64(a)
      case U64Error(k) => BadCount(k)
      case U64Value(n) =>
        match UnitOf(b)
        case None => BadUnit(b)
        case Some(u) => Parsed(Quantity(n, u))
  }

  /** Printing a quantity with a non-digit separator and reading it back gives it back. */
  lemma QuantityRoundTrip(q: Quantity, sep: char)
    requires !Text.IsDigit(sep)
    ensures ParseQuantity(Text.ShowNat(q.count) + [sep] + UnitSymbol(q.unit), sep) == Parsed(q)
  {
    var a := Text.ShowNat(q.count);
    assert forall k :: 0 <= k < |a| ==> a[k] != sep;
    Text.SplitOnceAt(a, sep, UnitSymbol(q.unit));
    FromStrShow(q.count);
    UnitOfSymbol(q.unit);
  }
}
