/** Values shared by every component: machine-sized integers, results and
    byte-order codecs. */
module Base {
  const USIZE_MAX: nat := 0xFFFF_FFFF_FFFF_FFFF
  const U32_MAX: nat := 0xFFFF_FFFF

  type byte = x: nat | x < 256
  type usize = x: nat | x <= USIZE_MAX

  datatype Option<+T> = None | Some(value: T) {
    function GetOr(default: T): T {
      if Some? then value else default
    }
  }

  datatype Result<+T, +E> = Ok(value: T) | Err(error: E) {
    predicate IsFailure() { Err? }
    function PropagateFailure<U>(): Result<U, E>
      requires Err?
    {
      Err(error)
    }
    function Extract(): T
      requires Ok?
    {
      value
    }
  }

  /** A half-open byte range. */
  datatype Range = Range(start: nat, end: nat)

  datatype Endian = Little | Big

  function Max(a: int, b: int): int { if a < b then b else a }

  function Min(a: int, b: int): int { if a < b then a else b }

  function Zeros(n: nat): (s: seq<byte>)
    ensures |s| == n && forall i :: 0 <= i < n ==> s[i] == 0
  {
    seq(n, _ => 0)
  }

  /** `usize` addition that reports overflow. */
  function CheckedAdd(a: nat, b: nat): Option<nat> {
    if a + b <= USIZE_MAX then Some(a + b) else None
  }

  function SaturatingAdd(a: nat, b: nat): nat {
    Min(a + b, USIZE_MAX)
  }

  // ----- fixed-width integers -----

  function Pow256(n: nat): (p: nat)
    ensures p > 0
  {
    if n == 0 then 1 else 256 * Pow256(n - 1)
  }

  /** Value of little-endian bytes. */
  function LittleValue(s: seq<byte>): (v: nat)
  {
    if s == [] then 0 else s[0] + 256 * LittleValue(s[1..])
  }

  function LittleBytes(value: nat, width: nat): (s: seq<byte>)
    ensures |s| == width
  {
    if width == 0 then [] else [value % 256] + LittleBytes(value / 256, width - 1)
  }

  function Reversed(s: seq<byte>): (r: seq<byte>)
    ensures |r| == |s|
    ensures forall i :: 0 <= i < |s| ==> r[i] == s[|s| - 1 - i]
  {
    seq(|s|, i requires 0 <= i < |s| => s[|s| - 1 - i])
  }

  function DecodeUnsigned(endian: Endian, s: seq<byte>): nat {
    if endian.Little? then LittleValue(s) else LittleValue(Reversed(s))
  }

  function EncodeUnsigned(endian: Endian, value: nat, width: nat): (s: seq<byte>)
    ensures |s| == width
  {
    if endian.Little? then LittleBytes(value, width) else Reversed(LittleBytes(value, width))
  }

  /** What a byte order means: one more byte is the most significant of a little-endian
      string when it comes last, and the least significant of a big-endian one. The
      other digits move up by one place. */
  lemma ByteOrder(s: seq<byte>, digit: byte)
    ensures forall endian :: DecodeUnsigned(endian, []) == 0
    ensures DecodeUnsigned(Little, [digit] + s) == digit + 256 * DecodeUnsigned(Little, s)
    ensures DecodeUnsigned(Big, s + [digit]) == 256 * DecodeUnsigned(Big, s) + digit
  {
    assert ([digit] + s)[1..] == s;
    assert Reversed(s + [digit]) == [digit] + Reversed(s);
    assert ([digit] + Reversed(s))[1..] == Reversed(s);
    assert Reversed([]) == [];
  }

  lemma {:induction false} LittleValueBound(s: seq<byte>)
    ensures LittleValue(s) < Pow256(|s|)
  {
    if s != [] {
      LittleValueBound(s[1..]);
    }
  }

  lemma {:induction false} LittleRoundTrip(value: nat, width: nat)
    requires value < Pow256(width)
    ensures LittleValue(LittleBytes(value, width)) == value
  {
    if width > 0 {
      LittleRoundTrip(value / 256, width - 1);
      assert LittleBytes(value, width)[1..] == LittleBytes(value / 256, width - 1);
    }
  }

  lemma {:induction false} LittleBytesUnique(s: seq<byte>)
    ensures LittleBytes(LittleValue(s), |s|) == s
  {
    if s != [] {
      LittleBytesUnique(s[1..]);
      assert s == [s[0]] + s[1..];
    }
  }

  lemma ReversedTwice(s: seq<byte>)
    ensures Reversed(Reversed(s)) == s
  {
  }

  /** Fixed-width decoding inverts encoding, in either byte order. */
  lemma DecodeEncode(endian: Endian, value: nat, width: nat)
    requires value < Pow256(width)
    ensures DecodeUnsigned(endian, EncodeUnsigned(endian, value, width)) == value
  {
    LittleRoundTrip(value, width);
    ReversedTwice(LittleBytes(value, width));
  }

  /** Every byte string is the encoding of the number it decodes to. */
  lemma EncodeDecode(endian: Endian, s: seq<byte>)
    ensures DecodeUnsigned(endian, s) < Pow256(|s|)
    ensures EncodeUnsigned(endian, DecodeUnsigned(endian, s), |s|) == s
  {
    LittleValueBound(s);
    LittleBytesUnique(s);
    LittleValueBound(Reversed(s));
    LittleBytesUnique(Reversed(s));
    ReversedTwice(s);
  }
}
