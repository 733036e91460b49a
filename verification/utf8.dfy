/**
 * UTF-8 as RFC 3629 defines it (section 3 and the well-formed byte
 * sequences of section 4): the validation `String::from_utf8` performs.
 * Overlong forms, surrogates (U+D800..U+DFFF) and code points above
 * U+10FFFF are rejected, so decoding is exactly the inverse of encoding.
 */
module Utf8 {
  import opened Ints
  import opened Errors

  /** A Unicode scalar value: a code point that is not a surrogate. */
  predicate IsScalar(cp: int)
  {
    0 <= cp < 0xD800 || 0xE000 <= cp < 0x11_0000
  }

  /** A continuation byte `10xxxxxx`. */
  predicate Cont(b: Byte)
  {
    0x80 <= b < 0xC0
  }

  /** The shortest UTF-8 form of one scalar value. */
  function EncodeChar(c: char): (r: seq<Byte>)
    ensures 1 <= |r| <= 4
    ensures |r| == 1 <==> (c as int) < 0x80
  {
    var cp := c as int;
    if cp < 0x80 then [cp]
    else if cp < 0x800 then [0xC0 + cp / 0x40, 0x80 + cp % 0x40]
    else if cp < 0x1_0000 then
      [0xE0 + cp / 0x1000, 0x80 + (cp / 0x40) % 0x40, 0x80 + cp % 0x40]
    else
      [0xF0 + cp / 0x4_0000, 0x80 + (cp / 0x1000) % 0x40, 0x80 + (cp / 0x40) % 0x40, 0x80 + cp % 0x40]
  }

  /** The UTF-8 form of a string. */
  function Encode(s: string): (r: seq<Byte>)
    ensures |r| >= |s|
  {
    if |s| == 0 then [] else EncodeChar(s[0]) + Encode(s[1..])
  }

  /** Two-byte form `110xxxxx 10xxxxxx`, lead bytes C2..DF. */
  function Decode2(b0: Byte, b1: Byte): (r: Option<char>)
    requires 0xC2 <= b0 <= 0xDF
    ensures r.Some? <==> Cont(b1)
    ensures r.Some? ==> 0x80 <= r.value as int < 0x800
  {
    if Cont(b1) then Some(((b0 - 0xC0) * 0x40 + (b1 - 0x80)) as char) else None
  }

  /** Three-byte form, lead bytes E0..EF; E0 excludes overlong forms and ED excludes surrogates. */
  function Decode3(b0: Byte, b1: Byte, b2: Byte): (r: Option<char>)
    requires 0xE0 <= b0 <= 0xEF
    ensures r.Some? <==> (if b0 == 0xE0 then 0xA0 else 0x80) <= b1 <= (if b0 == 0xED then 0x9F else 0xBF) && Cont(b2)
    ensures r.Some? ==> 0x800 <= r.value as int < 0x1_0000
  {
    var lo := if b0 == 0xE0 then 0xA0 else 0x80;
    var hi := if b0 == 0xED then 0x9F else 0xBF;
    if lo <= b1 <= hi && Cont(b2) then
      Some(((b0 - 0xE0) * 0x1000 + (b1 - 0x80) * 0x40 + (b2 - 0x80)) as char)
    else None
  }

  /** Four-byte form, lead bytes F0..F4; F0 excludes overlong forms and F4 stops at U+10FFFF. */
  function Decode4(b0: Byte, b1: Byte, b2: Byte, b3: Byte): (r: Option<char>)
    requires 0xF0 <= b0 <= 0xF4
    ensures r.Some? <==> (if b0 == 0xF0 then 0x90 else 0x80) <= b1 <= (if b0 == 0xF4 then 0x8F else 0xBF) && Cont(b2) && Cont(b3)
    ensures r.Some? ==> 0x1_0000 <= r.value as int < 0x11_0000
  {
    var lo := if b0 == 0xF0 then 0x90 else 0x80;
    var hi := if b0 == 0xF4 then 0x8F else 0xBF;
    if lo <= b1 <= hi && Cont(b2) && Cont(b3) then
      Some(((b0 - 0xF0) * 0x4_0000 + (b1 - 0x80) * 0x1000 + (b2 - 0x80) * 0x40 + (b3 - 0x80)) as char)
    else None
  }

  /** The first scalar value of `b` and how many bytes it takes, if `b` starts with a well-formed sequence. */
  function DecodeFirst(b: seq<Byte>): (r: Option<(char, nat)>)
    ensures r.Some? ==> 1 <= r.value.1 <= 4 && r.value.1 <= |b|
    ensures |b| == 0 ==> r.None?
  {
    if |b| == 0 then None
    else if b[0] < 0x80 then Some((b[0] as char, 1))
    else if 0xC2 <= b[0] <= 0xDF then
      if |b| < 2 then None
      else match Decode2(b[0], b[1]) case None => None case Some(c) => Some((c, 2))
    else if 0xE0 <= b[0] <= 0xEF then
      if |b| < 3 then None
      else match Decode3(b[0], b[1], b[2]) case None => None case Some(c) => Some((c, 3))
    else if 0xF0 <= b[0] <= 0xF4 then
      if |b| < 4 then None
      else match Decode4(b[0], b[1], b[2], b[3]) case None => None case Some(c) => Some((c, 4))
    else None
  }

  /** `String::from_utf8`: the decoded text, or `None` for any ill-formed input. */
  function Decode(b: seq<Byte>): (r: Option<string>)
    ensures r.Some? ==> |r.value| <= |b|
    decreases |b|
  {
    if |b| == 0 then Some([])
    else
      match DecodeFirst(b)
      case None => None
      case Some((c, n)) =>
        match Decode(b[n..])
        case None => None
        case Some(cs) => Some([c] + cs)
  }

  /** Division by 64 splits `q * 64 + r` back into its parts. */
  lemma DivMod64(q: int, r: int)
    requires 0 <= r < 0x40
    ensures (q * 0x40 + r) / 0x40 == q && (q * 0x40 + r) % 0x40 == r
  {
  }

  lemma EncodeDecode2(c: char)
    requires 0x80 <= c as int < 0x800
    ensures Decode2(EncodeChar(c)[0], EncodeChar(c)[1]) == Some(c)
  {
    var cp := c as int;
    var q, r := cp / 0x40, cp % 0x40;
    assert cp == q * 0x40 + r;
  }

  lemma EncodeDecode3(c: char)
    requires 0x800 <= c as int < 0x1_0000
    ensures Decode3(EncodeChar(c)[0], EncodeChar(c)[1], EncodeChar(c)[2]) == Some(c)
  {
    var cp := c as int;
    var q, r := cp / 0x40, cp % 0x40;
    var a, m := q / 0x40, q % 0x40;
    assert cp == q * 0x40 + r && q == a * 0x40 + m;
    assert cp / 0x1000 == a;
  }

  lemma EncodeDecode4(c: char)
    requires 0x1_0000 <= c as int
    ensures Decode4(EncodeChar(c)[0], EncodeChar(c)[1], EncodeChar(c)[2], EncodeChar(c)[3]) == Some(c)
  {
    var cp := c as int;
    var q, r := cp / 0x40, cp % 0x40;
    var p, m := q / 0x40, q % 0x40;
    var a, n := p / 0x40, p % 0x40;
    assert cp == q * 0x40 + r && q == p * 0x40 + m && p == a * 0x40 + n;
    assert cp / 0x1000 == p && cp / 0x4_0000 == a;
  }

  /** One encoded scalar value decodes back to itself, whatever follows it. */
  lemma DecodeEncodeChar(c: char, rest: seq<Byte>)
    ensures DecodeFirst(EncodeChar(c) + rest) == Some((c, |EncodeChar(c)|))
  {
    var e := EncodeChar(c);
    var b := e + rest;
    var cp := c as int;
    assert b[..|e|] == e;
    if 0x80 <= cp < 0x800 {
      EncodeDecode2(c);
    } else if 0x800 <= cp < 0x1_0000 {
      EncodeDecode3(c);
    } else if 0x1_0000 <= cp {
      EncodeDecode4(c);
    }
  }

  lemma DecodeEncode2(b0: Byte, b1: Byte)
    requires 0xC2 <= b0 <= 0xDF && Decode2(b0, b1).Some?
    ensures EncodeChar(Decode2(b0, b1).value) == [b0, b1]
  {
    DivMod64(b0 - 0xC0, b1 - 0x80);
  }

  lemma DecodeEncode3(b0: Byte, b1: Byte, b2: Byte)
    requires 0xE0 <= b0 <= 0xEF && Decode3(b0, b1, b2).Some?
    ensures EncodeChar(Decode3(b0, b1, b2).value) == [b0, b1, b2]
  {
    var q := (b0 - 0xE0) * 0x40 + (b1 - 0x80);
    DivMod64(q, b2 - 0x80);
    DivMod64(b0 - 0xE0, b1 - 0x80);
    var cp := q * 0x40 + (b2 - 0x80);
    assert cp / 0x1000 == b0 - 0xE0;
  }

  lemma DecodeEncode4(b0: Byte, b1: Byte, b2: Byte, b3: Byte)
    requires 0xF0 <= b0 <= 0xF4 && Decode4(b0, b1, b2, b3).Some?
    ensures EncodeChar(Decode4(b0, b1, b2, b3).value) == [b0, b1, b2, b3]
  {
    var p := (b0 - 0xF0) * 0x40 + (b1 - 0x80);
    var q := p * 0x40 + (b2 - 0x80);
    DivMod64(q, b3 - 0x80);
    DivMod64(p, b2 - 0x80);
    DivMod64(b0 - 0xF0, b1 - 0x80);
    var cp := q * 0x40 + (b3 - 0x80);
    assert cp / 0x1000 == p && cp / 0x4_0000 == b0 - 0xF0;
  }

  /** A well-formed prefix is the encoding of the value decoded from it: there is only one way to write each value. */
  lemma DecodeFirstCanonical(b: seq<Byte>, c: char, n: nat)
    requires DecodeFirst(b) == Some((c, n))
    ensures n <= |b| && b[..n] == EncodeChar(c)
  {
    if n == 2 {
      DecodeEncode2(b[0], b[1]);
      assert b[..2] == [b[0], b[1]];
    } else if n == 3 {
      DecodeEncode3(b[0], b[1], b[2]);
      assert b[..3] == [b[0], b[1], b[2]];
    } else if n == 4 {
      DecodeEncode4(b[0], b[1], b[2], b[3]);
      assert b[..4] == [b[0], b[1], b[2], b[3]];
    }
  }

  lemma EncodeCons(c: char, t: string)
    ensures Encode([c] + t) == EncodeChar(c) + Encode(t)
  {
    assert ([c] + t)[0] == c && ([c] + t)[1..] == t;
  }

  /** Encoding then decoding gives the string back. */
  lemma {:induction false} DecodeEncode(s: string)
    ensures Decode(Encode(s)) == Some(s)
  {
    if |s| > 0 {
      var e := EncodeChar(s[0]);
      DecodeEncodeChar(s[0], Encode(s[1..]));
      assert Encode(s)[|e|..] == Encode(s[1..]);
      DecodeEncode(s[1..]);
      assert s == [s[0]] + s[1..];
    }
  }

  /** Whatever decodes to `s` is exactly the encoding of `s`. */
  lemma {:induction false} DecodeSound(b: seq<Byte>)
    requires Decode(b).Some?
    ensures Encode(Decode(b).value) == b
    decreases |b|
  {
    if |b| > 0 {
      var first := DecodeFirst(b).value;
      var c, n := first.0, first.1;
      var t := Decode(b[n..]).value;
      assert Decode(b) == Some([c] + t);
      DecodeFirstCanonical(b, c, n);
      DecodeSound(b[n..]);
      EncodeCons(c, t);
      assert b == b[..n] + b[n..];
    }
  }

  /** `b` is valid UTF-8 for `s` exactly when it is the encoding of `s`. */
  lemma DecodeIff(b: seq<Byte>, s: string)
    ensures Decode(b) == Some(s) <==> b == Encode(s)
  {
    if Decode(b) == Some(s) {
      DecodeSound(b);
    }
    if b == Encode(s) {
      DecodeEncode(s);
    }
  }
}
