/**
 * The JFR variable-length integer (jfr-reader/src/common.rs).
 *
 * Unsigned LEB128 (section 7.6 of the DWARF 4 standard), little-endian
 * groups of seven bits, except that after eight continuation bytes a ninth
 * byte contributes all eight of its bits at shift 56. A 9-byte encoding is
 * therefore never rejected, and any 64-bit pattern can be written.
 */
module Leb128 {
  import opened Ints
  import opened Errors
  import opened Nom

  /** Every byte carries the continuation bit (its high bit is set). */
  predicate AllContinue(s: seq<Byte>)
  {
    forall j :: 0 <= j < |s| ==> s[j] >= 0x80
  }

  /** The weight of group `i`: `1 << 7 * i`. */
  function Shift(i: nat): (r: nat)
    requires i <= 8
    ensures 1 <= r <= TWO_56
  {
    match i
    case 0 => 1
    case 1 => 0x80
    case 2 => 0x4000
    case 3 => 0x20_0000
    case 4 => 0x1000_0000
    case 5 => 0x8_0000_0000
    case 6 => 0x400_0000_0000
    case 7 => 0x2_0000_0000_0000
    case _ => 0x100_0000_0000_0000
  }

  /** `g << 7 * i` for a group `g` that fits below bit 64. */
  function Weighted(g: nat, i: nat): (r: nat)
    requires i <= 8
  {
    match i
    case 0 => g
    case 1 => g * 0x80
    case 2 => g * 0x4000
    case 3 => g * 0x20_0000
    case 4 => g * 0x1000_0000
    case 5 => g * 0x8_0000_0000
    case 6 => g * 0x400_0000_0000
    case 7 => g * 0x2_0000_0000_0000
    case _ => g * 0x100_0000_0000_0000
  }

  /** Adding a seven-bit group above every bit of `acc` stays below the next group's weight. */
  lemma GroupBound(acc: nat, g: nat, i: nat)
    requires i < 8 && acc < Shift(i) && g < 0x80
    ensures acc + Weighted(g, i) < Shift(i + 1)
  {
  }

  /**
   * How many bytes `leb128_i64` reads, from loop iteration `i` on: each
   * iteration reads one byte with `be_i8` and stops after a byte whose high
   * bit is clear; when `i` reaches 8 the ninth byte is read unconditionally.
   */
  function Scan(s: seq<Byte>, i: nat): (r: PResult<nat>)
    requires i <= 8
    ensures r.PErr? ==> r.err == Incomplete(Size(1))
    ensures r.POk? ==> 1 <= r.value <= 9 - i && r.value <= |s| && r.rest == s[r.value..]
    decreases 8 - i
  {
    match BeI8(s)
    case PErr(e) => PErr(e)
    case POk(x, s1) =>
      if i == 8 || x >= 0 then POk(1, s1)
      else
        match Scan(s1, i + 1)
        case PErr(e) => PErr(e)
        case POk(c, s2) => POk(c + 1, s2)
  }

  /** The scan runs out of input exactly when fewer than `9 - i` bytes remain and all of them continue. */
  lemma {:induction false} ScanFails(s: seq<Byte>, i: nat)
    requires i <= 8
    ensures Scan(s, i).PErr? <==> |s| < 9 - i && AllContinue(s)
    decreases 8 - i
  {
    if |s| > 0 && i < 8 && s[0] >= 0x80 {
      assert BeI8(s) == POk(ToI8(s[0]), s[1..]);
      ScanFails(s[1..], i + 1);
      assert forall j :: 1 <= j < |s| ==> s[j] == s[1..][j - 1];
    }
  }

  /** The scan stops right after the first byte without the continuation bit, or after the ninth byte. */
  lemma {:induction false} ScanStops(s: seq<Byte>, i: nat)
    requires i <= 8 && Scan(s, i).POk?
    ensures var c := Scan(s, i).value;
      (forall j :: 0 <= j < c - 1 ==> s[j] >= 0x80) && (c < 9 - i ==> s[c - 1] < 0x80)
    decreases 8 - i
  {
    assert BeI8(s) == POk(ToI8(s[0]), s[1..]);
    if i < 8 && s[0] >= 0x80 {
      ScanStops(s[1..], i + 1);
      assert forall j :: 1 <= j < |s| ==> s[j] == s[1..][j - 1];
    }
  }

  /**
   * The value `res` the loop accumulates over the scanned bytes `b`, from
   * iteration `i` with `res == acc`: `res += (x & 0x7f) << 7 * i` for the
   * first eight bytes, `res += (x & 0xff) << 56` for the ninth. The bound
   * shows no addition carries out of bit 63 of the unsigned pattern.
   */
  function Accumulate(b: seq<Byte>, i: nat, acc: nat): (r: nat)
    requires i <= 8 && |b| <= 9 - i && acc < Shift(i)
    ensures r < TWO_64
    decreases |b|
  {
    if |b| == 0 then acc
    else if i == 8 then acc + b[0] * TWO_56
    else
      GroupBound(acc, b[0] % 0x80, i);
      Accumulate(b[1..], i + 1, acc + Weighted(b[0] % 0x80, i))
  }

  /**
   * The ninth step on the `i64` accumulator: `(x & 0xff) << 56` wraps into
   * the sign bit, and adding it to `res < 2^56` gives the two's-complement
   * reading of the unsigned sum that `Accumulate` computes.
   */
  lemma NinthByte(acc: nat, u: nat)
    requires acc < TWO_56 && u < 0x100
    ensures acc + ToI64(u * TWO_56) == ToI64(acc + u * TWO_56)
  {
  }

  /** `leb128_i64`. */
  function ReadI64(s: seq<Byte>): (r: PResult<I64>)
    ensures r.PErr? <==> |s| < 9 && AllContinue(s)
    ensures r.PErr? ==> r.err == Incomplete(Size(1))
    ensures r.POk? ==> 1 <= |s| - |r.rest| <= 9 && IsSuffix(r.rest, s)
    ensures r.POk? ==> forall j :: 0 <= j < |s| - |r.rest| - 1 ==> s[j] >= 0x80
    ensures r.POk? && |s| - |r.rest| < 9 ==> s[|s| - |r.rest| - 1] < 0x80
  {
    match Scan(s, 0)
    case PErr(e) =>
      ScanFails(s, 0);
      PErr(e)
    case POk(c, rest) =>
      ScanStops(s, 0);
      ScanFails(s, 0);
      POk(ToI64(Accumulate(s[..c], 0, 0)), rest)
  }

  /** A first byte with the high bit clear is the whole value. */
  lemma SingleByte(s: seq<Byte>)
    requires |s| >= 1 && s[0] < 0x80
    ensures ReadI64(s) == POk(s[0], s[1..])
  {
    assert BeI8(s) == POk(ToI8(s[0]), s[1..]);
    assert Scan(s, 0) == POk(1, s[1..]);
    assert s[..1] == [s[0]] && [s[0]][1..] == [];
    assert Accumulate([s[0]], 0, 0) == s[0];
  }

  /** `2^64 / Shift(i)`: how many values the groups from `i` on can still express. */
  function Room(i: nat): (r: nat)
    requires i <= 8
    ensures r * Shift(i) == TWO_64
  {
    match i
    case 0 => TWO_64
    case 1 => 0x200_0000_0000_0000
    case 2 => 0x4_0000_0000_0000
    case 3 => 0x800_0000_0000
    case 4 => 0x10_0000_0000
    case 5 => 0x2000_0000
    case 6 => 0x40_0000
    case 7 => 0x8000
    case _ => 0x100
  }

  /** The encoder `leb128_i64` reads, from group `i` on: seven bits per byte, low group first, the ninth byte carrying the top eight bits. */
  function EncodeFrom(u: nat, i: nat): (b: seq<Byte>)
    requires i <= 8 && u < Room(i)
    ensures 1 <= |b| <= 9 - i
    decreases 8 - i
  {
    if i == 8 then [u]
    else if u < 0x80 then [u]
    else [u % 0x80 + 0x80] + EncodeFrom(u / 0x80, i + 1)
  }

  /** The JFR varint encoding of a 64-bit pattern. */
  function Encode(u: U64): (b: seq<Byte>)
    ensures 1 <= |b| <= 9
  {
    EncodeFrom(u, 0)
  }

  /** The encoder's output is one varint: continuation bits on every byte but the last, which ends it. */
  lemma {:induction false} ScanEncoded(u: nat, i: nat, rest: seq<Byte>)
    requires i <= 8 && u < Room(i)
    ensures Scan(EncodeFrom(u, i) + rest, i) == POk(|EncodeFrom(u, i)|, rest)
    decreases 8 - i
  {
    var b := EncodeFrom(u, i);
    var s := b + rest;
    assert s[0] == b[0] && s[1..] == b[1..] + rest;
    assert BeI8(s) == POk(ToI8(b[0]), b[1..] + rest);
    if i < 8 && u >= 0x80 {
      ScanEncoded(u / 0x80, i + 1, rest);
      assert b == [b[0]] + EncodeFrom(u / 0x80, i + 1);
    }
  }

  /** A value is its low seven bits at weight `i` plus the rest at weight `i + 1`. */
  lemma SplitGroup(u: nat, i: nat)
    requires i < 8
    ensures Weighted(u % 0x80, i) + Weighted(u / 0x80, i + 1) == Weighted(u, i)
  {
  }

  /** Accumulating the encoder's bytes adds the encoded value at weight `i`. */
  lemma {:induction false} AccumulateEncoded(u: nat, i: nat, acc: nat)
    requires i <= 8 && u < Room(i) && acc < Shift(i)
    ensures Accumulate(EncodeFrom(u, i), i, acc) == acc + Weighted(u, i)
    decreases 8 - i
  {
    var b := EncodeFrom(u, i);
    if i < 8 {
      var g := u % 0x80;
      assert b[0] % 0x80 == g;
      GroupBound(acc, g, i);
      var acc' := acc + Weighted(g, i);
      assert Accumulate(b, i, acc) == Accumulate(b[1..], i + 1, acc');
      if u < 0x80 {
        assert b[1..] == [];
      } else {
        assert b[1..] == EncodeFrom(u / 0x80, i + 1);
        AccumulateEncoded(u / 0x80, i + 1, acc');
        SplitGroup(u, i);
      }
    }
  }

  /** Decoding inverts the encoder for every 64-bit pattern, whatever follows. */
  lemma RoundTrip(u: U64, rest: seq<Byte>)
    ensures ReadI64(Encode(u) + rest) == POk(ToI64(u), rest)
  {
    ScanEncoded(u, 0, rest);
    AccumulateEncoded(u, 0, 0);
    assert (Encode(u) + rest)[..|Encode(u)|] == Encode(u);
  }

  /** Every `i64` is written as its two's-complement bit pattern and read back unchanged. */
  lemma RoundTripSigned(x: I64, rest: seq<Byte>)
    ensures ReadI64(Encode(AsUsize(x)) + rest) == POk(x, rest)
  {
    RoundTrip(AsUsize(x), rest);
  }

  /** `leb128_i32`: the same bytes as `leb128_i64`, keeping the low 32 bits and never failing on range. */
  function ReadI32(s: seq<Byte>): (r: PResult<I32>)
    ensures r.PErr? <==> ReadI64(s).PErr?
    ensures r.PErr? ==> r.err == ReadI64(s).err
    ensures r.POk? ==> r.rest == ReadI64(s).rest && SameLowBits(r.value, ReadI64(s).value, TWO_32)
    ensures r.POk? ==> IsSuffix(r.rest, s)
  {
    var (x, rest) :- ReadI64(s);
    POk(ToI32(x), rest)
  }

  /** `leb128_i16`: the same bytes as `leb128_i64`, keeping the low 16 bits. */
  function ReadI16(s: seq<Byte>): (r: PResult<I16>)
    ensures r.PErr? <==> ReadI64(s).PErr?
    ensures r.PErr? ==> r.err == ReadI64(s).err
    ensures r.POk? ==> r.rest == ReadI64(s).rest && SameLowBits(r.value, ReadI64(s).value, TWO_16)
    ensures r.POk? ==> IsSuffix(r.rest, s)
  {
    var (x, rest) :- ReadI64(s);
    POk(ToI16(x), rest)
  }

  /** An `i32` written as its sign-extended 64-bit pattern reads back unchanged through `leb128_i32`. */
  lemma RoundTripI32(x: I32, rest: seq<Byte>)
    ensures ReadI32(Encode(AsUsize(x)) + rest) == POk(x, rest)
  {
    RoundTripSigned(x, rest);
  }

  /** An `i16` written as its sign-extended 64-bit pattern reads back unchanged through `leb128_i16`. */
  lemma RoundTripI16(x: I16, rest: seq<Byte>)
    ensures ReadI16(Encode(AsUsize(x)) + rest) == POk(x, rest)
  {
    RoundTripSigned(x, rest);
  }

  /** An `i64` as the varint `leb128_i64` reads. */
  function EncodeI64(x: I64): seq<Byte>
  {
    Encode(AsUsize(x))
  }

  /** An `i32` as the varint `leb128_i32` reads: its sign-extended pattern. */
  function EncodeI32(x: I32): seq<Byte>
  {
    Encode(AsUsize(x))
  }

  /** `count(leb128_i64, n)` reads back `n` written values. */
  lemma CountI64s(xs: seq<I64>, rest: seq<Byte>)
    ensures Nom.Count(ReadI64, ConcatMap(EncodeI64, xs) + rest, |xs|) == POk(xs, rest)
  {
    forall x: I64, r: seq<Byte> ensures ReadI64(EncodeI64(x) + r) == POk(x, r) {
      RoundTripSigned(x, r);
    }
    CountConcat(ReadI64, EncodeI64, xs, rest);
  }

  /** `count(leb128_i32, n)` reads back `n` written values. */
  lemma CountI32s(xs: seq<I32>, rest: seq<Byte>)
    ensures Nom.Count(ReadI32, ConcatMap(EncodeI32, xs) + rest, |xs|) == POk(xs, rest)
  {
    forall x: I32, r: seq<Byte> ensures ReadI32(EncodeI32(x) + r) == POk(x, r) {
      RoundTripI32(x, r);
    }
    CountConcat(ReadI32, EncodeI32, xs, rest);
  }
}
