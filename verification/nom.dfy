/**
 * The few nom byte parsers the reader is built from, with nom's streaming
 * semantics: running short of input is `Incomplete`, never a value.
 */
module Nom {
  import opened Ints
  import opened Errors

  /** `rest` is what a parser leaves of `s` after consuming a prefix. */
  predicate IsSuffix(rest: seq<Byte>, s: seq<Byte>)
  {
    |rest| <= |s| && rest == s[|s| - |rest|..]
  }

  /** Concatenation regroups; stated once so that proofs about encoders need not re-derive it. */
  lemma ConcatAssoc<X>(a: seq<X>, b: seq<X>, c: seq<X>)
    ensures (a + b) + c == a + (b + c)
  {
  }

  /** A byte in front of `e`, followed by `rest`: what a one-byte reader sees first and leaves behind. */
  lemma ConsSplit(x: Byte, e: seq<Byte>, rest: seq<Byte>)
    ensures (([x] + e) + rest)[0] == x && (([x] + e) + rest)[1..] == e + rest
  {
    ConcatAssoc([x], e, rest);
  }

  /** Unsigned big-endian reading of a byte string. */
  function BigEndian(b: seq<Byte>): (r: nat)
    ensures r < Pow2(8 * |b|)
  {
    if |b| == 0 then 0
    else
      var hi := BigEndian(b[..|b| - 1]);
      var k := 8 * (|b| - 1);
      Pow2Plus8(k);
      assert k + 8 == 8 * |b|;
      hi * 256 + b[|b| - 1]
  }

  /** The `width` big-endian bytes of `v`: what `be_u16`/`be_u32`/`be_u64` read back. */
  function ToBigEndian(v: nat, width: nat): (b: seq<Byte>)
    requires v < Pow2(8 * width)
    ensures |b| == width
  {
    if width == 0 then []
    else
      Pow2Plus8(8 * (width - 1));
      assert 8 * (width - 1) + 8 == 8 * width;
      ToBigEndian(v / 256, width - 1) + [v % 256]
  }

  /** Big-endian reading inverts big-endian writing. */
  lemma {:induction false} BigEndianInverse(v: nat, width: nat)
    requires v < Pow2(8 * width)
    ensures BigEndian(ToBigEndian(v, width)) == v
  {
    if width > 0 {
      Pow2Plus8(8 * (width - 1));
      assert 8 * (width - 1) + 8 == 8 * width;
      var b := ToBigEndian(v, width);
      assert b[..width - 1] == ToBigEndian(v / 256, width - 1);
      BigEndianInverse(v / 256, width - 1);
    }
  }

  /** A fixed-width big-endian field reads back, whatever follows it. */
  lemma BeUnsignedRoundTrip(v: nat, width: nat, rest: seq<Byte>)
    requires v < Pow2(8 * width)
    ensures BeUnsigned(ToBigEndian(v, width) + rest, width) == POk(v, rest)
  {
    var b := ToBigEndian(v, width);
    assert (b + rest)[..width] == b && (b + rest)[width..] == rest;
    BigEndianInverse(v, width);
  }

  /** `streaming::take(n)`: exactly `n` bytes, or Incomplete for the shortfall. */
  function Take(s: seq<Byte>, n: nat): (r: PResult<seq<Byte>>)
    ensures n <= |s| <==> r.POk?
    ensures r.POk? ==> r.value + r.rest == s && |r.value| == n
    ensures r.PErr? ==> r.err == Incomplete(Size(n - |s|))
  {
    if n <= |s| then POk(s[..n], s[n..]) else PErr(Incomplete(NeededNew(n - |s|)))
  }

  /** `streaming::be_i8`. */
  function BeI8(s: seq<Byte>): (r: PResult<I8>)
    ensures |s| >= 1 <==> r.POk?
    ensures r.POk? ==> r.value == ToI8(s[0]) && r.rest == s[1..]
    ensures r.PErr? ==> r.err == Incomplete(Size(1))
  {
    if |s| < 1 then PErr(Incomplete(NeededNew(1))) else POk(ToI8(s[0]), s[1..])
  }

  /** `complete::be_u8`: an empty input is an Eof error rather than Incomplete. */
  function BeU8Complete(s: seq<Byte>): (r: PResult<Byte>)
    ensures |s| >= 1 <==> r.POk?
    ensures r.POk? ==> r.value == s[0] && r.rest == s[1..]
    ensures r.PErr? ==> r.err == Error(FromErrorKind(s, Eof))
  {
    if |s| < 1 then PErr(Error(FromErrorKind(s, Eof))) else POk(s[0], s[1..])
  }

  /** `streaming::be_u16/be_u32/be_u64` share this shape: `width` bytes, big-endian. */
  function BeUnsigned(s: seq<Byte>, width: nat): (r: PResult<nat>)
    ensures width <= |s| <==> r.POk?
    ensures r.POk? ==> r.value == BigEndian(s[..width]) && r.rest == s[width..]
    ensures r.POk? ==> r.value < Pow2(8 * width)
    ensures r.PErr? ==> r.err == Incomplete(NeededNew(width - |s|))
  {
    if |s| < width then PErr(Incomplete(NeededNew(width - |s|)))
    else POk(BigEndian(s[..width]), s[width..])
  }

  /** `streaming::tag(t)`: a mismatch is an Error, a short matching prefix is Incomplete. */
  function Tag(s: seq<Byte>, t: seq<Byte>): (r: PResult<seq<Byte>>)
    ensures r.POk? <==> |t| <= |s| && s[..|t|] == t
    ensures r.POk? ==> r.value == t && r.rest == s[|t|..]
    ensures r.PErr? && r.err.Incomplete? <==> |s| < |t| && s == t[..|s|]
    ensures r.PErr? && r.err.Error? ==> r.err.e == FromErrorKind(s, ErrorKind.Tag)
  {
    if |s| < |t| then
      if s == t[..|s|] then PErr(Incomplete(NeededNew(|t| - |s|)))
      else PErr(Error(FromErrorKind(s, ErrorKind.Tag)))
    else if s[..|t|] == t then POk(t, s[|t|..])
    else PErr(Error(FromErrorKind(s, ErrorKind.Tag)))
  }

  /** `multi::count(f, n)`: `f` exactly `n` times in sequence; the first error stops it. */
  function Count<T>(f: seq<Byte> -> PResult<T>, s: seq<Byte>, n: nat): (r: PResult<seq<T>>)
    ensures r.POk? ==> |r.value| == n
    decreases n
  {
    if n == 0 then POk([], s)
    else
      match f(s)
      case PErr(Error(e)) => PErr(Error(Append(s, ErrorKind.Count, e)))
      case PErr(e) => PErr(e)
      case POk(v, s1) =>
        match Count(f, s1, n - 1)
        case PErr(e) => PErr(e)
        case POk(vs, s2) => POk([v] + vs, s2)
  }

  /** One more successful step in front of a successful `count`. */
  lemma CountCons<T>(f: seq<Byte> -> PResult<T>, s: seq<Byte>, xs: seq<T>, s1: seq<Byte>, s2: seq<Byte>)
    requires |xs| > 0 && f(s) == POk(xs[0], s1) && Count(f, s1, |xs| - 1) == POk(xs[1..], s2)
    ensures Count(f, s, |xs|) == POk(xs, s2)
  {
    assert xs == [xs[0]] + xs[1..];
  }

  /** The items of `xs`, each written by `enc`, one after another. */
  function ConcatMap<T>(enc: T -> seq<Byte>, xs: seq<T>): seq<Byte>
  {
    if |xs| == 0 then [] else enc(xs[0]) + ConcatMap(enc, xs[1..])
  }

  /** `count(f, n)` reads back `n` items written by an encoder that `f` inverts. */
  lemma {:induction false} CountConcat<T>(f: seq<Byte> -> PResult<T>, enc: T -> seq<Byte>, xs: seq<T>, rest: seq<Byte>)
    requires forall x, r :: x in xs ==> f(enc(x) + r) == POk(x, r)
    ensures Count(f, ConcatMap(enc, xs) + rest, |xs|) == POk(xs, rest)
  {
    if |xs| > 0 {
      var t := ConcatMap(enc, xs[1..]);
      ConcatAssoc(enc(xs[0]), t, rest);
      CountConcat(f, enc, xs[1..], rest);
      CountCons(f, ConcatMap(enc, xs) + rest, xs, t + rest, rest);
    }
  }

  /**
   * A loop of `n` fallible steps, each starting where the previous one
   * stopped, as in `for _ in 0..n { let (rest, v) = f(s)?; s = rest; ... }`;
   * the first error stops it.
   */
  function Repeat<T>(f: seq<Byte> -> Result<(T, seq<Byte>)>, s: seq<Byte>, n: nat): (r: Result<(seq<T>, seq<Byte>)>)
    ensures r.Ok? ==> |r.value.0| == n
    decreases n
  {
    if n == 0 then Ok(([], s))
    else
      match f(s)
      case Err(e) => Err(e)
      case Ok((v, s1)) =>
        match Repeat(f, s1, n - 1)
        case Err(e) => Err(e)
        case Ok((vs, s2)) => Ok(([v] + vs, s2))
  }

  /** One more successful step in front of a successful loop. */
  lemma RepeatCons<T>(f: seq<Byte> -> Result<(T, seq<Byte>)>, s: seq<Byte>, xs: seq<T>, s1: seq<Byte>, s2: seq<Byte>)
    requires |xs| > 0 && f(s) == Ok((xs[0], s1)) && Repeat(f, s1, |xs| - 1) == Ok((xs[1..], s2))
    ensures Repeat(f, s, |xs|) == Ok((xs, s2))
  {
    assert xs == [xs[0]] + xs[1..];
  }

  /** The loop reads back `n` items written by an encoder that each step inverts. */
  lemma {:induction false} RepeatConcat<T>(f: seq<Byte> -> Result<(T, seq<Byte>)>, enc: T -> seq<Byte>, xs: seq<T>, rest: seq<Byte>)
    requires forall x, r :: x in xs ==> f(enc(x) + r) == Ok((x, r))
    ensures Repeat(f, ConcatMap(enc, xs) + rest, |xs|) == Ok((xs, rest))
  {
    if |xs| == 0 {
      assert ConcatMap(enc, xs) + rest == rest;
    } else {
      var t := ConcatMap(enc, xs[1..]);
      assert ConcatMap(enc, xs) + rest == enc(xs[0]) + (t + rest) by {
        ConcatAssoc(enc(xs[0]), t, rest);
      }
      assert f(enc(xs[0]) + (t + rest)) == Ok((xs[0], t + rest));
      assert forall x, r :: x in xs[1..] ==> f(enc(x) + r) == Ok((x, r));
      RepeatConcat(f, enc, xs[1..], rest);
      RepeatCons(f, ConcatMap(enc, xs) + rest, xs, t + rest, rest);
    }
  }
}
