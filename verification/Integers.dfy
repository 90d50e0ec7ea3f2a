/** Variable-width integers: the VU128 decoder and the ZigZag map, down to the final
    cast to the declared scalar. */
module Integers {
  import opened Arith
  import opened Base
  import opened Bits

  datatype Vu128Error = NeedMore(offset: nat, additional: nat) | Overflow(offset: nat, bits: nat)

  // ----- VU128 -----

  /** Bytes of the integer that starts with `prefix`. */
  function EncodedLen(prefix: byte): (len: nat)
    ensures 1 <= len <= 17
  {
    if prefix < 0x80 then 1
    else if prefix < 0xc0 then 2
    else if prefix < 0xe0 then 3
    else if prefix < 0xf0 then 4
    else prefix % 16 + 2
  }

  /** Weight of the bytes after the prefix: the prefix itself carries the values below. */
  function Scale(prefix: byte): (p: nat)
    ensures p > 0
  {
    if prefix < 0x80 then 128
    else if prefix < 0xc0 then 64
    else if prefix < 0xe0 then 32
    else if prefix < 0xf0 then 16
    else 1
  }

  /** The arithmetic value: the prefix's part, and the bytes after it little-endian. */
  function Vu128Value(encoded: seq<byte>): nat
    requires |encoded| > 0
  {
    encoded[0] % Scale(encoded[0]) + LittleValue(encoded[1..]) * Scale(encoded[0])
  }

  /** What decoding a leading integer of at most `bits` bits gives. */
  function Decoded(input: seq<byte>, offset: nat, bits: nat): Result<(nat, nat), Vu128Error> {
    if bits == 0 || bits > 128 then Err(Overflow(offset, bits))
    else if input == [] then Err(NeedMore(offset, 1))
    else
      var len := EncodedLen(input[0]);
      if |input| < len then Err(NeedMore(SaturatingAdd(offset, |input|), len - |input|))
      else if Vu128Value(input[..len]) >= Pow2(bits) then Err(Overflow(offset, bits))
      else Ok((Vu128Value(input[..len]), len))
  }

  /** Joining little-endian bytes by or and shift is their arithmetic value. */
  lemma {:induction false} LittleAppend(s: seq<byte>, b: byte)
    ensures LittleValue(s + [b]) == LittleValue(s) + b * Pow2(8 * |s|)
    ensures LittleValue(s) < Pow2(8 * |s|)
  {
    if s == [] {
      assert s + [b] == [b] && [b][1..] == [];
    } else {
      LittleAppend(s[1..], b);
      assert (s + [b])[1..] == s[1..] + [b];
      Pow2Add(8, 8 * (|s| - 1));
      Shifted(b, Pow2(8 * (|s| - 1)));
    }
  }

  lemma Shifted(b: nat, p: nat)
    ensures Pow2(8) == 256 && 256 * (b * p) == b * (256 * p)
  {
  }

  method DecodeVu128(input: seq<byte>, offset: nat, bits: nat) returns (r: Result<(nat, nat), Vu128Error>)
    ensures r == Decoded(input, offset, bits)
  {
    hide Pow2, Shr, And, Vu128Value;
    var overflow := Overflow(offset, bits);
    if bits == 0 || bits > 128 {
      return Err(overflow);
    }
    if |input| == 0 {
      return Err(NeedMore(offset, 1));
    }
    var prefix := input[0];
    var len := if prefix <= 0x7f then 1 else if prefix <= 0xbf then 2 else if prefix <= 0xdf then 3
               else if prefix <= 0xef then 4 else And(prefix, 0x0f) + 2;
    LowNibble(prefix);
    if |input| < len {
      return Err(NeedMore(SaturatingAdd(offset, |input|), len - |input|));
    }
    var value := Joined(input[..len]);
    OnesShifted(128, bits);
    if value > Shr(Pow2(128) - 1, 128 - bits) {
      return Err(overflow);
    }
    r := Ok((value, len));
  }

  lemma LowNibble(prefix: byte)
    ensures And(prefix, 0x0f) == prefix % 16
  {
    MaskIsLow(prefix, 4);
    LowIsMod(prefix, 4);
    assert Pow2(4) == 16;
  }

  /** All ones of `n` bits shifted down to `m` bits. */
  lemma OnesShifted(n: nat, m: nat)
    requires m <= n
    ensures Shr(Pow2(n) - 1, n - m) == Pow2(m) - 1
  {
    var ones, shifted := Pow2(m) - 1, Shr(Pow2(n) - 1, n - m);
    forall i: nat ensures Bit(shifted, i) == Bit(ones, i) {
      ShrBit(Pow2(n) - 1, n - m, i);
      OnesBit(n, i + (n - m));
      OnesBit(m, i);
    }
    Extensional(shifted, ones);
  }

  // ----- the joined parts -----

  /** The low bits of a prefix. */
  lemma Masked(prefix: byte, n: nat, p: nat)
    requires p == Pow2(n)
    ensures And(prefix, p - 1) == prefix % p < p
  {
    MaskIsLow(prefix, n);
    LowIsMod(prefix, n);
  }

  lemma JoinAt(low: nat, high: nat, n: nat, p: nat)
    requires p == Pow2(n) && low < p
    ensures Or(low, Shl(high, n)) == low + high * p
  {
    OrIsAdd(low, high, n);
  }

  lemma SmallPowers()
    ensures Pow2(4) == 16 && Pow2(5) == 32 && Pow2(6) == 64 && Pow2(8) == 256
    ensures Pow2(12) == 4096 && Pow2(13) == 8192 && Pow2(20) == 0x10_0000
  {
    Pow2Add(5, 8);
    Pow2Add(4, 8);
    Pow2Add(12, 8);
  }

  lemma LittleValues(p: byte, a: byte, b: byte, c: byte)
    ensures LittleValue([p][1..]) == 0
    ensures LittleValue([p, a][1..]) == a
    ensures LittleValue([p, a, b][1..]) == a + 256 * b
    ensures LittleValue([p, a, b, c][1..]) == a + 256 * b + 0x1_0000 * c
  {
    assert [p][1..] == [] && [p, a][1..] == [a] && [p, a, b][1..] == [a, b] && [p, a, b, c][1..] == [a, b, c];
    assert [a][1..] == [] && [b][1..] == [] && [c][1..] == [];
    assert [a, b][1..] == [b] && [b, c][1..] == [c] && [a, b, c][1..] == [b, c];
    assert LittleValue([a]) == a && LittleValue([b]) == b && LittleValue([c]) == c && LittleValue([b, c]) == b + 256 * c;
  }

  lemma OnePart(prefix: byte)
    requires prefix < 0x80
    ensures Vu128Value([prefix]) == prefix
  {
    LittleValues(prefix, 0, 0, 0);
  }

  lemma TwoParts(prefix: byte, a: byte)
    requires 0x80 <= prefix < 0xc0
    ensures Or(And(prefix, 0x3f), Shl(a, 6)) == Vu128Value([prefix, a])
  {
    hide Pow2, And, Or, Shl, LittleValue;
    SmallPowers();
    LittleValues(prefix, a, 0, 0);
    Masked(prefix, 6, 64);
    JoinAt(prefix % 64, a, 6, 64);
  }

  lemma ThreeParts(prefix: byte, a: byte, b: byte)
    requires 0xc0 <= prefix < 0xe0
    ensures Or(Or(And(prefix, 0x1f), Shl(a, 5)), Shl(b, 13)) == Vu128Value([prefix, a, b])
  {
    hide Pow2, And, Or, Shl, LittleValue;
    SmallPowers();
    LittleValues(prefix, a, b, 0);
    Masked(prefix, 5, 32);
    JoinAt(prefix % 32, a, 5, 32);
    JoinAt(prefix % 32 + a * 32, b, 13, 8192);
  }

  lemma FourParts(prefix: byte, a: byte, b: byte, c: byte)
    requires 0xe0 <= prefix < 0xf0
    ensures Or(Or(Or(And(prefix, 0x0f), Shl(a, 4)), Shl(b, 12)), Shl(c, 20)) == Vu128Value([prefix, a, b, c])
  {
    hide Pow2, And, Or, Shl, LittleValue;
    SmallPowers();
    LittleValues(prefix, a, b, c);
    Masked(prefix, 4, 16);
    JoinAt(prefix % 16, a, 4, 16);
    JoinAt(prefix % 16 + a * 16, b, 12, 4096);
    JoinAt(prefix % 16 + a * 16 + b * 4096, c, 20, 0x10_0000);
  }

  lemma LongForm(encoded: seq<byte>)
    requires |encoded| > 0 && encoded[0] >= 0xf0
    ensures Vu128Value(encoded) == LittleValue(encoded[1..])
  {
  }

  /** The long form accumulates one byte at a time. */
  method LongValue(payload: seq<byte>) returns (value: nat)
    ensures value == LittleValue(payload)
  {
    value := 0;
    for index := 0 to |payload|
      invariant value == LittleValue(payload[..index])
    {
      assert payload[..index + 1] == payload[..index] + [payload[index]];
      LittleAppend(payload[..index], payload[index]);
      OrIsAdd(value, payload[index], 8 * index);
      value := Or(value, Shl(payload[index], index * 8));
    }
    assert payload[..|payload|] == payload;
  }

  /** Joins the parts of a complete encoding. */
  method Joined(encoded: seq<byte>) returns (value: nat)
    requires |encoded| > 0 && |encoded| == EncodedLen(encoded[0])
    ensures value == Vu128Value(encoded)
  {
    var prefix := encoded[0];
    if prefix <= 0x7f {
      OnePart(prefix);
      assert encoded == [prefix];
      value := prefix;
    } else if prefix <= 0xbf {
      TwoParts(prefix, encoded[1]);
      assert encoded == [prefix, encoded[1]];
      value := Or(And(prefix, 0x3f), Shl(encoded[1], 6));
    } else if prefix <= 0xdf {
      ThreeParts(prefix, encoded[1], encoded[2]);
      assert encoded == [prefix, encoded[1], encoded[2]];
      value := Or(Or(And(prefix, 0x1f), Shl(encoded[1], 5)), Shl(encoded[2], 13));
    } else if prefix <= 0xef {
      FourParts(prefix, encoded[1], encoded[2], encoded[3]);
      assert encoded == [prefix, encoded[1], encoded[2], encoded[3]];
      value := Or(Or(Or(And(prefix, 0x0f), Shl(encoded[1], 4)), Shl(encoded[2], 12)), Shl(encoded[3], 20));
    } else {
      LongForm(encoded);
      value := LongValue(encoded[1..]);
    }
  }

  // ----- what decoding depends on -----

  /** Only the bytes the prefix declares matter. */
  lemma DeclaredBytesOnly(x: seq<byte>, y: seq<byte>, offset: nat, bits: nat)
    requires |x| > 0 && |y| > 0 && x[0] == y[0] && EncodedLen(x[0]) <= |x| && EncodedLen(x[0]) <= |y|
    requires x[..EncodedLen(x[0])] == y[..EncodedLen(x[0])]
    ensures Decoded(x, offset, bits) == Decoded(y, offset, bits)
  {
  }

  /** A shortage is exact: once a prefix is there, decoding still lacks bytes exactly as
      long as fewer than the reported number are added. */
  lemma ShortageExact(input: seq<byte>, more: seq<byte>, offset: nat, bits: nat)
    requires input != [] && Decoded(input, offset, bits).Err? && Decoded(input, offset, bits).error.NeedMore?
    ensures var r := Decoded(input + more, offset, bits);
            (r.Err? && r.error.NeedMore?) <==> |more| < Decoded(input, offset, bits).error.additional
  {
    assert (input + more)[0] == input[0];
  }

  // ----- every value has encodings -----

  /** One complete integer of this value. */
  predicate Encodes(encoded: seq<byte>, value: nat) {
    encoded != [] && |encoded| == EncodedLen(encoded[0]) && Vu128Value(encoded) == value
  }

  /** What encodes a value decodes to it, whatever follows, unless it is out of range. */
  lemma EncodesDecodes(encoded: seq<byte>, value: nat, rest: seq<byte>, offset: nat, bits: nat)
    requires Encodes(encoded, value) && 0 < bits <= 128
    ensures Decoded(encoded + rest, offset, bits) ==
              if value < Pow2(bits) then Ok((value, |encoded|)) else Err(Overflow(offset, bits))
  {
    assert (encoded + rest)[0] == encoded[0] && (encoded + rest)[..|encoded|] == encoded;
  }

  lemma SplitValue(value: nat, n: nat, scale: nat, bound: nat)
    requires scale > 0 && value < scale * Pow256(n) <= bound
    ensures value % scale + LittleValue(LittleBytes(value / scale, n)) * scale == value
    ensures value / scale < Pow256(n)
  {
    DivMod(value, scale);
    if value / scale >= Pow256(n) {
      Mono(Pow256(n), scale, value / scale, scale);
      Commute(Pow256(n), scale);
    }
    LittleRoundTrip(value / scale, n);
  }

  /** The four short forms carry 7, 14, 21 and 28 bits. */
  lemma ShortForms(value: nat)
    ensures value < 0x80 ==> Encodes([value], value)
    ensures value < 0x4000 ==> Encodes([0x80 + value % 64] + LittleBytes(value / 64, 1), value)
    ensures value < 0x20_0000 ==> Encodes([0xc0 + value % 32] + LittleBytes(value / 32, 2), value)
    ensures value < 0x1000_0000 ==> Encodes([0xe0 + value % 16] + LittleBytes(value / 16, 3), value)
  {
    hide LittleBytes;
    assert Pow256(1) == 256 && Pow256(2) == 0x1_0000 && Pow256(3) == 0x100_0000;
    if value < 0x80 {
      OnePart(value);
    }
    if value < 0x4000 {
      SplitValue(value, 1, 64, 0x4000);
      FormIs(0x80 + value % 64, LittleBytes(value / 64, 1));
    }
    if value < 0x20_0000 {
      SplitValue(value, 2, 32, 0x20_0000);
      FormIs(0xc0 + value % 32, LittleBytes(value / 32, 2));
    }
    if value < 0x1000_0000 {
      SplitValue(value, 3, 16, 0x1000_0000);
      FormIs(0xe0 + value % 16, LittleBytes(value / 16, 3));
    }
  }

  lemma FormIs(prefix: byte, payload: seq<byte>)
    ensures Vu128Value([prefix] + payload) == prefix % Scale(prefix) + LittleValue(payload) * Scale(prefix)
  {
    assert ([prefix] + payload)[1..] == payload;
  }

  /** The long forms carry 1 to 16 whole bytes. */
  lemma LongForms(value: nat, n: nat)
    requires 1 <= n <= 16 && value < Pow2(8 * n)
    ensures Encodes([0xef + n] + LittleBytes(value, n), value)
  {
    hide Pow256, Pow2, LittleBytes, LittleValue;
    WholeBytes(n);
    FormIs(0xef + n, LittleBytes(value, n));
    LittleRoundTrip(value, n);
  }

  /** So every value of at most 128 bits has an encoding that decodes to it. */
  lemma EveryValueEncodes(value: nat, rest: seq<byte>, offset: nat)
    requires value < Pow2(128)
    ensures var encoded := [0xff] + LittleBytes(value, 16);
            Decoded(encoded + rest, offset, 128) == Ok((value, |encoded|))
  {
    hide Pow2, LittleBytes, Decoded, Encodes;
    LongForms(value, 16);
    EncodesDecodes([0xff] + LittleBytes(value, 16), value, rest, offset, 128);
  }

  // ----- ZigZag -----

  /** Signed words of `w` bits. */
  predicate Signed(w: nat, v: int) {
    w > 0 && 0 <= v + Pow2(w - 1) && v < Pow2(w - 1)
  }

  lemma Halves(w: nat)
    requires w > 0
    ensures Pow2(w) == 2 * Pow2(w - 1)
  {
  }

  /** The cast from a signed to an unsigned word and back. */
  function AsUnsigned(w: nat, v: int): nat
    requires Signed(w, v)
  {
    Halves(w);
    if v < 0 then v + Pow2(w) else v
  }

  function AsSigned(w: nat, u: nat): int
    requires w > 0 && u < Pow2(w)
  {
    if u < Pow2(w - 1) then u else u - Pow2(w)
  }

  /** `(value << 1) ^ (value >> (w - 1))`, on words. */
  function ZigZagEncode(w: nat, v: int): nat
    requires Signed(w, v)
  {
    Xor(Low(Shl(AsUnsigned(w, v), 1), w), if v < 0 then Pow2(w) - 1 else 0)
  }

  lemma XorFits(w: nat, a: nat)
    requires a < Pow2(w)
    ensures Xor(a, 0) < Pow2(w) && Xor(a, Pow2(w) - 1) < Pow2(w)
  {
    XorZero(a);
    XorOnes(a, w);
  }

  /** `(value >> 1) ^ -(value & 1)`, on words. */
  function ZigZagDecode(w: nat, u: nat): int
    requires w > 0 && u < Pow2(w)
  {
    HalfFits(w, u);
    XorFits(w, Shr(u, 1));
    AsSigned(w, Xor(Shr(u, 1), if And(u, 1) == 1 then Pow2(w) - 1 else 0))
  }

  lemma HalfFits(w: nat, u: nat)
    requires u < Pow2(w)
    ensures Shr(u, 1) == u / 2 < Pow2(w)
  {
  }

  lemma Doubled(u: nat)
    ensures Shl(u, 1) == 2 * u
  {
  }

  lemma LowOver(a: nat, n: nat)
    requires Pow2(n) <= a < 2 * Pow2(n)
    ensures Low(a, n) == a - Pow2(n)
  {
    LowIsMod(a, n);
    DivModUnique(a, Pow2(n), 1, a - Pow2(n));
  }

  lemma EncodeIs(w: nat, v: int)
    requires Signed(w, v)
    ensures ZigZagEncode(w, v) == if v < 0 then -2 * v - 1 else 2 * v
    ensures ZigZagEncode(w, v) < Pow2(w)
  {
    hide Pow2, Shl, Low, Xor;
    var u := AsUnsigned(w, v);
    Halves(w);
    Doubled(u);
    if v < 0 {
      LowOver(2 * u, w);
      XorOnes(2 * v + Pow2(w), w);
    } else {
      FitsLow(2 * u, w);
      XorZero(2 * v);
    }
  }

  lemma DecodeIs(w: nat, u: nat)
    requires w > 0 && u < Pow2(w)
    ensures ZigZagDecode(w, u) == if u % 2 == 1 then -(u / 2) - 1 else u / 2
    ensures Signed(w, ZigZagDecode(w, u))
  {
    Halves(w);
    HalfFits(w, u);
    MaskIsLow(u, 1);
    LowIsMod(u, 1);
    assert Pow2(1) == 2;
    hide Pow2, Shr, Low, Xor, And;
    XorZero(u / 2);
    XorOnes(u / 2, w);
  }

  /** ZigZag is a bijection between signed and unsigned words. */
  lemma ZigZagBijection(w: nat, v: int, u: nat)
    requires Signed(w, v) && u < Pow2(w)
    ensures ZigZagEncode(w, v) < Pow2(w) && ZigZagDecode(w, ZigZagEncode(w, v)) == v
    ensures Signed(w, ZigZagDecode(w, u)) && ZigZagEncode(w, ZigZagDecode(w, u)) == u
  {
    hide ZigZagEncode, ZigZagDecode, Pow2;
    EncodeIs(w, v);
    DecodeIs(w, ZigZagEncode(w, v));
    DecodeIs(w, u);
    EncodeIs(w, ZigZagDecode(w, u));
  }

  /** It carries the unsigned values of `bits` bits onto the signed values of `bits`
      bits, so the final cast to the declared scalar loses nothing. */
  lemma ZigZagNarrows(w: nat, bits: nat, u: nat)
    requires 0 < bits <= w && u < Pow2(w)
    ensures Signed(w, ZigZagDecode(w, u))
    ensures u < Pow2(bits) <==> Signed(bits, ZigZagDecode(w, u))
    ensures u < Pow2(bits) ==> ZigZagDecode(w, u) == ZigZagDecode(bits, u)
    ensures u < Pow2(bits) ==> Narrowed(w, bits, ZigZagDecode(w, u)) == ZigZagDecode(w, u)
  {
    hide ZigZagDecode;
    DecodeIs(w, u);
    Halves(bits);
    if u < Pow2(bits) {
      DecodeIs(bits, u);
      Truncates(w, bits, ZigZagDecode(w, u));
    }
  }

  /** The cast of a signed word to a signed word of `bits` bits. */
  function Narrowed(w: nat, bits: nat, v: int): int
    requires 0 < bits && Signed(w, v)
  {
    LowBelow(AsUnsigned(w, v), bits);
    AsSigned(bits, Low(AsUnsigned(w, v), bits))
  }

  lemma LowBelow(a: nat, n: nat)
    ensures Low(a, n) < Pow2(n)
  {
    LowIsMod(a, n);
  }

  /** Truncating a word whose value fits a narrower one keeps the value. */
  lemma Truncates(w: nat, bits: nat, v: int)
    requires 0 < bits <= w && Signed(bits, v)
    ensures Signed(w, v) && Narrowed(w, bits, v) == v
  {
    Pow2Monotone(bits - 1, w - 1);
    Halves(bits);
    Halves(w);
    Pow2Add(w - bits, bits);
    LowIsMod(AsUnsigned(w, v), bits);
    hide Pow2, Low;
    if v < 0 {
      WrapNegative(v, Pow2(w - bits), Pow2(bits));
    } else {
      DivModUnique(v, Pow2(bits), 0, v);
    }
  }

  lemma WrapNegative(v: int, q: nat, p: nat)
    requires v < 0 <= v + p && q > 0
    ensures v + q * p >= 0 && (v + q * p) % p == v + p
  {
    assert q * p == (q - 1) * p + p;
    assert (q - 1) * p >= 0;
    DivModUnique(v + q * p, p, q - 1, v + p);
  }

  // ----- a whole field -----

  datatype Encoding = Encoding(bits: nat, zigzag: bool)

  /** The generated read of a VU128 scalar: decode, undo ZigZag, cast to the wire type. */
  function DecodeScalar(e: Encoding, input: seq<byte>, offset: nat): Result<(int, nat), Vu128Error>
    requires 0 < e.bits <= 128
  {
    match Decoded(input, offset, e.bits)
    case Err(error) => Err(error)
    case Ok((value, len)) =>
      Pow2Monotone(e.bits, 128);
      if e.zigzag then
        DecodeIs(128, value);
        Ok((Narrowed(128, e.bits, ZigZagDecode(128, value)), len))
      else Ok((Low(value, e.bits), len))
  }

  /** Any encoding whose arithmetic value is the scalar's reads back as the scalar,
      whatever follows it: the value for unsigned scalars, its ZigZag image for signed. */
  lemma ScalarReads(e: Encoding, v: int, encoded: seq<byte>, rest: seq<byte>, offset: nat)
    requires 0 < e.bits <= 128 && |encoded| > 0 && |encoded| == EncodedLen(encoded[0])
    requires if e.zigzag then Signed(e.bits, v) && Vu128Value(encoded) == ZigZagEncode(e.bits, v)
             else 0 <= v < Pow2(e.bits) && Vu128Value(encoded) == v
    ensures DecodeScalar(e, encoded + rest, offset) == Ok((v, |encoded|))
  {
    assert (encoded + rest)[..|encoded|] == encoded && (encoded + rest)[0] == encoded[0];
    var value := Vu128Value(encoded);
    Pow2Monotone(e.bits, 128);
    if e.zigzag {
      EncodeIs(e.bits, v);
      ZigZagNarrows(128, e.bits, value);
      ZigZagBijection(e.bits, v, value);
    } else {
      FitsLow(value, e.bits);
    }
  }
}
