/**
 * The pieces of Rust's `str` API the crates rely on, over Dafny strings
 * (sequences of Unicode scalar values): `split_once`, `starts_with`,
 * `trim`, `lines` and integer `from_str`.
 */
module Text {
  import opened Errors

  /** `s.starts_with(p)`. */
  predicate StartsWith(s: string, p: string)
  {
    |p| <= |s| && s[..|p|] == p
  }

  /** Position of the first `c` in `s`. */
  function IndexOf(s: string, c: char): (r: Option<nat>)
    ensures r.None? <==> c !in s
    ensures r.Some? ==> r.value < |s| && s[r.value] == c && c !in s[..r.value]
  {
    if |s| == 0 then None
    else if s[0] == c then Some(0)
    else
      match IndexOf(s[1..], c)
      case None => None
      case Some(i) => assert s[..i + 1] == [s[0]] + s[1..][..i]; Some(i + 1)
  }

  /** `s.split_once(c)`: the text before and after the first `c`. */
  function SplitOnce(s: string, c: char): (r: Option<(string, string)>)
    ensures r.None? <==> c !in s
    ensures r.Some? ==> s == r.value.0 + [c] + r.value.1 && c !in r.value.0
  {
    match IndexOf(s, c)
    case None => None
    case Some(i) =>
      assert s == s[..i] + [c] + s[i + 1..];
      Some((s[..i], s[i + 1..]))
  }

  /** Splitting at a `c` with none before it gives back both halves. */
  lemma SplitOnceAt(x: string, c: char, y: string)
    requires c !in x
    ensures SplitOnce(x + [c] + y, c) == Some((x, y))
  {
    var s := x + [c] + y;
    assert s[|x|] == c;
    var i := IndexOf(s, c).value;
    assert i == |x|;
    assert s[..|x|] == x && s[|x| + 1..] == y;
  }

  /** `s.split(c).nth(1)`: the text between the first and second `c` (or to the end). */
  function SecondField(s: string, c: char): (r: Option<string>)
    ensures r.None? <==> c !in s
    ensures r.Some? ==> c !in r.value
    ensures r.Some? ==> var after := SplitOnce(s, c).value.1;
      StartsWith(after, r.value) && (|after| == |r.value| || after[|r.value|] == c)
  {
    match SplitOnce(s, c)
    case None => None
    case Some((_, b)) =>
      match SplitOnce(b, c)
      case None => Some(b)
      case Some((b1, b2)) =>
        assert b[..|b1|] == b1;
        Some(b1)
  }

  /** Unicode `White_Space`, the set `str::trim` removes. */
  predicate IsWhiteSpace(c: char)
  {
    ('\U{9}' <= c <= '\U{D}') || c == '\U{20}' || c == '\U{85}' || c == '\U{A0}' || c == '\U{1680}'
    || ('\U{2000}' <= c <= '\U{200A}') || c == '\U{2028}' || c == '\U{2029}' || c == '\U{202F}'
    || c == '\U{205F}' || c == '\U{3000}'
  }

  predicate AllWhiteSpace(s: string)
  {
    forall i :: 0 <= i < |s| ==> IsWhiteSpace(s[i])
  }

  /** Where `s.trim_start()` begins: the first position at or after `i` that is not white space. */
  function TrimStartFrom(s: string, i: nat): (k: nat)
    requires i <= |s|
    ensures i <= k <= |s|
    ensures forall j :: i <= j < k ==> IsWhiteSpace(s[j])
    ensures k < |s| ==> !IsWhiteSpace(s[k])
    decreases |s| - i
  {
    if i < |s| && IsWhiteSpace(s[i]) then TrimStartFrom(s, i + 1) else i
  }

  /** Where `s.trim_end()` stops: the end of `s[..e]` once trailing white space after `k` is dropped. */
  function TrimEndTo(s: string, k: nat, e: nat): (r: nat)
    requires k <= e <= |s|
    ensures k <= r <= e
    ensures forall j :: r <= j < e ==> IsWhiteSpace(s[j])
    ensures r > k ==> !IsWhiteSpace(s[r - 1])
    decreases e
  {
    if e > k && IsWhiteSpace(s[e - 1]) then TrimEndTo(s, k, e - 1) else e
  }

  /**
   * `s.trim()`: the slice between leading and trailing white space; `k` is
   * where it starts.
   */
  function Trim(s: string): (r: string)
    ensures var k := TrimStartFrom(s, 0); k + |r| <= |s| && r == s[k..k + |r|]
    ensures forall j :: 0 <= j < TrimStartFrom(s, 0) ==> IsWhiteSpace(s[j])
    ensures forall j :: TrimStartFrom(s, 0) + |r| <= j < |s| ==> IsWhiteSpace(s[j])
    ensures |r| > 0 ==> !IsWhiteSpace(r[0]) && !IsWhiteSpace(r[|r| - 1])
    ensures |r| == 0 <==> AllWhiteSpace(s)
  {
    var k := TrimStartFrom(s, 0);
    var e := TrimEndTo(s, k, |s|);
    s[k..e]
  }

  /** The text of `s` minus one trailing carriage return, if any. */
  function StripCr(s: string): (r: string)
    ensures r == s || (s == r + ['\r'])
  {
    if |s| > 0 && s[|s| - 1] == '\r' then s[..|s| - 1] else s
  }

  /**
   * `s.lines()`: pieces separated by `\n`; a `\r` right before a `\n` is
   * dropped; a final `\n` does not start an empty line.
   */
  function Lines(s: string): (r: seq<string>)
    ensures forall i :: 0 <= i < |r| ==> '\n' !in r[i]
    ensures |s| == 0 <==> |r| == 0
    decreases |s|
  {
    if |s| == 0 then []
    else
      match SplitOnce(s, '\n')
      case None => [s]
      case Some((line, more)) => [StripCr(line)] + Lines(more)
  }

  /** Every line followed by `\n`: the text `lines()` reads back. */
  function Unlines(ls: seq<string>): string
  {
    if |ls| == 0 then [] else ls[0] + "\n" + Unlines(ls[1..])
  }

  /** Lines without line-ending characters survive a round trip through `Unlines`. */
  lemma {:induction false} LinesUnlines(ls: seq<string>)
    requires forall i :: 0 <= i < |ls| ==> '\n' !in ls[i] && '\r' !in ls[i]
    ensures Lines(Unlines(ls)) == ls
  {
    if |ls| > 0 {
      SplitOnceAt(ls[0], '\n', Unlines(ls[1..]));
      LinesUnlines(ls[1..]);
      assert StripCr(ls[0]) == ls[0] by {
        if |ls[0]| > 0 {
          assert ls[0][|ls[0]| - 1] in ls[0];
        }
      }
    }
  }

  predicate IsDigit(c: char)
  {
    '0' <= c <= '9'
  }

  predicate AllDigits(s: string)
  {
    forall i :: 0 <= i < |s| ==> IsDigit(s[i])
  }

  /** The number a string of decimal digits denotes. */
  function DigitsValue(s: string): nat
    requires AllDigits(s)
  {
    if |s| == 0 then 0 else DigitsValue(s[..|s| - 1]) * 10 + (s[|s| - 1] as int - '0' as int)
  }

  /** Decimal digits of `n`, without leading zeros. */
  function ShowNat(n: nat): (r: string)
    ensures |r| >= 1 && AllDigits(r)
  {
    var d := ['0' + (n % 10) as char];
    if n < 10 then d else ShowNat(n / 10) + d
  }

  lemma {:induction false} ShowNatValue(n: nat)
    ensures DigitsValue(ShowNat(n)) == n
  {
    var r := ShowNat(n);
    if n >= 10 {
      ShowNatValue(n / 10);
      assert r[..|r| - 1] == ShowNat(n / 10);
    }
  }

  /** The length of the sign `from_str` accepts in front of the digits: `+`, or `-` for a signed type. */
  function SignLength(s: string, signed: bool): nat
  {
    if |s| > 0 && (s[0] == '+' || (signed && s[0] == '-')) then 1 else 0
  }

  /** The text is a sign `from_str` accepts followed by one or more decimal digits. */
  predicate SignedDigits(s: string, signed: bool)
  {
    SignLength(s, signed) < |s| && AllDigits(s[SignLength(s, signed)..])
  }

  /** The value of a signed decimal: the digits' value, negated after a `-`. */
  function Reading(s: string, signed: bool): int
    requires SignedDigits(s, signed)
  {
    var v: int := DigitsValue(s[SignLength(s, signed)..]);
    if signed && s[0] == '-' then -v else v
  }

  /**
   * Rust's `from_str` for an integer type with range `lo..=hi`: an optional
   * `+` (or `-` when the type is signed), then one or more decimal digits,
   * and a value in range. All errors collapse to `None`.
   */
  function ParseInt(s: string, signed: bool, lo: int, hi: int): (r: Option<int>)
    ensures r.Some? <==> SignedDigits(s, signed) && lo <= Reading(s, signed) <= hi
    ensures r.Some? ==> r.value == Reading(s, signed)
    ensures r.Some? ==> lo <= r.value <= hi
    ensures |s| == 0 ==> r.None?
    ensures r.Some? ==> forall i :: 0 < i < |s| ==> IsDigit(s[i])
  {
    if |s| == 0 then None
    else if (s[0] == '+' || s[0] == '-') && |s| == 1 then None
    else
      var negative := signed && s[0] == '-';
      var digits := if s[0] == '+' || negative then s[1..] else s;
      if !AllDigits(digits) then None
      else
        var v := if negative then -(DigitsValue(digits) as int) else DigitsValue(digits) as int;
        if lo <= v <= hi then Some(v) else None
  }

  /** A leading zero adds nothing to the value of a digit string. */
  lemma {:induction false} DigitsLeadingZero(d: string)
    requires AllDigits(d)
    ensures AllDigits("0" + d) && DigitsValue("0" + d) == DigitsValue(d)
    decreases |d|
  {
    if |d| > 0 {
      var z := "0" + d;
      assert z[..|z| - 1] == "0" + d[..|d| - 1];
      DigitsLeadingZero(d[..|d| - 1]);
    }
  }

  /** `from_str` ignores leading zeros: `007` reads as `7`. */
  lemma ParseLeadingZero(d: string, signed: bool, lo: int, hi: int)
    requires |d| > 0 && AllDigits(d)
    ensures ParseInt("0" + d, signed, lo, hi) == ParseInt(d, signed, lo, hi)
  {
    DigitsLeadingZero(d);
  }

  /** `from_str` accepts a `+` in front of the digits and ignores it: `+7` reads as `7`. */
  lemma ParsePlus(d: string, signed: bool, lo: int, hi: int)
    requires |d| > 0 && AllDigits(d)
    ensures ParseInt("+" + d, signed, lo, hi) == ParseInt(d, signed, lo, hi)
  {
    assert ("+" + d)[1..] == d;
  }

  /** A signed type reads `-` and digits as the negated digits' value, when in range. */
  lemma ParseMinus(d: string, lo: int, hi: int)
    requires |d| > 0 && AllDigits(d)
    ensures var v := -(DigitsValue(d) as int); ParseInt("-" + d, true, lo, hi) == if lo <= v <= hi then Some(v) else None
  {
    var s := "-" + d;
    assert SignLength(s, true) == 1 && s[1..] == d;
    assert Reading(s, true) == -(DigitsValue(d) as int);
  }

  /** An unsigned type rejects every `-`. */
  lemma ParseMinusUnsigned(d: string, lo: int, hi: int)
    ensures ParseInt("-" + d, false, lo, hi).None?
  {
    assert !IsDigit(("-" + d)[0]);
  }

  /** Decimal text of an integer, as `to_string` writes it. */
  function ShowInt(v: int): (r: string)
    ensures |r| >= 1
  {
    if v < 0 then "-" + ShowNat(-v) else ShowNat(v)
  }

  /** Parsing inverts printing for every in-range value. */
  lemma ParseShowInt(v: int, signed: bool, lo: int, hi: int)
    requires lo <= v <= hi && (v < 0 ==> signed)
    ensures ParseInt(ShowInt(v), signed, lo, hi) == Some(v)
  {
    var t := ShowInt(v);
    if v < 0 {
      ShowNatValue(-v);
      assert t[0] == '-' && t[1..] == ShowNat(-v);
    } else {
      ShowNatValue(v);
      assert IsDigit(t[0]);
    }
  }

  /** Rust `i32::from_str`. */
  function ParseI32(s: string): (r: Option<int>)
    ensures r.Some? <==> SignedDigits(s, true) && -0x8000_0000 <= Reading(s, true) < 0x8000_0000
    ensures r.Some? ==> r.value == Reading(s, true)
  {
    ParseInt(s, true, -0x8000_0000, 0x7FFF_FFFF)
  }

  /** Rust `i64::from_str`. */
  function ParseI64(s: string): (r: Option<int>)
    ensures r.Some? <==> SignedDigits(s, true) && -0x8000_0000_0000_0000 <= Reading(s, true) < 0x8000_0000_0000_0000
    ensures r.Some? ==> r.value == Reading(s, true)
  {
    ParseInt(s, true, -0x8000_0000_0000_0000, 0x7FFF_FFFF_FFFF_FFFF)
  }

  /** Rust `u64::from_str`: a leading `-` is an invalid digit. */
  function ParseU64(s: string): (r: Option<nat>)
    ensures r.Some? ==> r.value < 0x1_0000_0000_0000_0000
    ensures |s| > 0 && s[0] == '-' ==> r.None?
  {
    match ParseInt(s, false, 0, 0xFFFF_FFFF_FFFF_FFFF)
    case None => None
    case Some(v) => Some(v)
  }
}
