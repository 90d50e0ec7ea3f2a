/** Nominal bitfields: disjoint bit ranges of one unsigned word, masked getters and
    setters, and a detached builder that remembers a value out of range. */
module Bitfield {
  import opened Base
  import opened Bits

  /** The Rust type of a logical field: bool, an unsigned integer, another scalar, or a
      type that is no scalar. */
  datatype Logical = Boolean | Unsigned(bits: nat) | OtherScalar(bits: nat) | NotScalar

  /** Bits `start ..= end` of the word. */
  datatype BitField = BitField(start: nat, end: nat, logical: Logical) {
    function Width(): nat
      requires start <= end
    {
      end - start + 1
    }

    function ValueMask(): nat
      requires start <= end
    {
      Pow2(Width()) - 1
    }

    function ShiftedMask(): nat
      requires start <= end
    {
      Shl(ValueMask(), start)
    }
  }

  datatype ParseError = RangeExceeds(field: nat) | SingleBitType(field: nat) | MultiBitType(field: nat)
    | TooNarrow(field: nat) | Overlap(field: nat) | NoFields

  predicate Covers(f: BitField, i: nat) {
    f.start <= i <= f.end
  }

  predicate Disjoint(f: BitField, g: BitField) {
    f.end < g.start || g.end < f.start
  }

  /** A range of the word whose logical type can hold it. */
  predicate Accepted(f: BitField, bits: nat) {
    && f.start <= f.end < bits
    && match f.logical
       case Boolean => f.start == f.end
       case Unsigned(b) => f.Width() <= b
       case OtherScalar(b) => f.start == f.end && 1 <= b
       case NotScalar => false
  }

  predicate ValidFields(fields: seq<BitField>, bits: nat) {
    && (forall k :: 0 <= k < |fields| ==> Accepted(fields[k], bits))
    && forall j, k :: 0 <= j < k < |fields| ==> Disjoint(fields[j], fields[k])
  }

  // ----- the overlap check -----

  lemma MaskBit(f: BitField, i: nat)
    requires f.start <= f.end
    ensures Bit(f.ShiftedMask(), i) <==> Covers(f, i)
  {
    ShlBit(f.ValueMask(), f.start, i);
    if i >= f.start {
      OnesBit(f.Width(), i - f.start);
    }
  }

  ghost predicate CoveredBy(fields: seq<BitField>, n: nat, i: nat)
    requires n <= |fields|
  {
    exists k :: 0 <= k < n && Covers(fields[k], i)
  }

  /** The mask of a range meets the used bits exactly when the range overlaps one before. */
  lemma OverlapSeen(fields: seq<BitField>, n: nat, used: nat)
    requires n < |fields| && fields[n].start <= fields[n].end
    requires forall k :: 0 <= k < n ==> fields[k].start <= fields[k].end
    requires forall i: nat :: Bit(used, i) <==> CoveredBy(fields, n, i)
    ensures And(used, fields[n].ShiftedMask()) == 0 <==> forall k :: 0 <= k < n ==> Disjoint(fields[k], fields[n])
  {
    var f := fields[n];
    var both := And(used, f.ShiftedMask());
    if both == 0 {
      forall k | 0 <= k < n ensures Disjoint(fields[k], f) {
        var i := Max(fields[k].start, f.start);
        ZeroBit(i);
        AndBit(used, f.ShiftedMask(), i);
        MaskBit(f, i);
        assert Covers(fields[k], i) ==> CoveredBy(fields, n, i);
      }
    } else {
      SomeBit(both);
      var i: nat :| Bit(both, i);
      AndBit(used, f.ShiftedMask(), i);
      MaskBit(f, i);
      var k :| 0 <= k < n && Covers(fields[k], i);
      assert !Disjoint(fields[k], f);
    }
  }

  lemma SomeBit(x: nat)
    requires x > 0
    ensures exists i: nat :: Bit(x, i)
  {
    if forall i: nat :: !Bit(x, i) {
      forall i: nat ensures Bit(x, i) == Bit(0, i) {
        ZeroBit(i);
      }
      Extensional(x, 0);
    }
  }

  /** Accepts exactly non-empty sets of typed, pairwise disjoint ranges of the word. */
  method Parse(fields: seq<BitField>, bits: nat) returns (r: Result<seq<BitField>, ParseError>)
    requires forall k :: 0 <= k < |fields| ==> fields[k].start <= fields[k].end
    ensures r.Ok? <==> fields != [] && ValidFields(fields, bits)
    ensures r.Ok? ==> r.value == fields
  {
    var used := 0;
    var parsed: seq<BitField> := [];
    forall i: nat ensures !Bit(0, i) {
      ZeroBit(i);
    }
    for n := 0 to |fields|
      invariant parsed == fields[..n]
      invariant forall k :: 0 <= k < n ==> Accepted(fields[k], bits)
      invariant forall j, k :: 0 <= j < k < n ==> Disjoint(fields[j], fields[k])
      invariant forall i: nat :: Bit(used, i) <==> CoveredBy(fields, n, i)
    {
      var f := fields[n];
      if f.end >= bits {
        return Err(RangeExceeds(n));
      }
      if f.Width() == 1 && f.logical.NotScalar? {
        return Err(SingleBitType(n));
      }
      if f.Width() > 1 && !f.logical.Unsigned? {
        return Err(MultiBitType(n));
      }
      if (f.logical.Unsigned? || f.logical.OtherScalar?) && f.Width() > f.logical.bits {
        return Err(TooNarrow(n));
      }
      OverlapSeen(fields, n, used);
      if And(used, f.ShiftedMask()) != 0 {
        return Err(Overlap(n));
      }
      forall i: nat ensures Bit(Or(used, f.ShiftedMask()), i) <==> CoveredBy(fields, n + 1, i) {
        OrBit(used, f.ShiftedMask(), i);
        MaskBit(f, i);
        assert Covers(fields[n], i) ==> CoveredBy(fields, n + 1, i);
      }
      used := Or(used, f.ShiftedMask());
      parsed := parsed + [f];
    }
    if parsed == [] {
      return Err(NoFields);
    }
    r := Ok(parsed);
  }

  // ----- getters and setters -----

  function Get(f: BitField, raw: nat): nat
    requires f.start <= f.end
  {
    And(Shr(raw, f.start), f.ValueMask())
  }

  /** The setter's word arithmetic: casts and shifts keep `bits` bits. */
  function Set(f: BitField, bits: nat, raw: nat, value: nat): nat
    requires f.start <= f.end < bits
  {
    var mask := Low(f.ShiftedMask(), bits);
    Or(And(raw, Not(bits, mask)), And(Low(Shl(Low(value, bits), f.start), bits), mask))
  }

  predicate InRange(f: BitField, value: nat)
    requires f.start <= f.end
  {
    value <= f.ValueMask()
  }

  lemma SetBit(f: BitField, bits: nat, raw: nat, value: nat, i: nat)
    requires f.start <= f.end < bits
    ensures Bit(Set(f, bits, raw, value), i) <==>
              if Covers(f, i) then Bit(value, i - f.start) else Bit(raw, i) && i < bits
  {
    var mask := Low(f.ShiftedMask(), bits);
    var moved := Low(Shl(Low(value, bits), f.start), bits);
    OrBit(And(raw, Not(bits, mask)), And(moved, mask), i);
    AndBit(raw, Not(bits, mask), i);
    AndBit(moved, mask, i);
    NotBit(bits, mask, i);
    LowBit(f.ShiftedMask(), bits, i);
    MaskBit(f, i);
    LowBit(Shl(Low(value, bits), f.start), bits, i);
    ShlBit(Low(value, bits), f.start, i);
    if i >= f.start {
      LowBit(value, bits, i - f.start);
    }
  }

  lemma GetBit(f: BitField, raw: nat, j: nat)
    requires f.start <= f.end
    ensures Bit(Get(f, raw), j) <==> j < f.Width() && Bit(raw, j + f.start)
  {
    AndBit(Shr(raw, f.start), f.ValueMask(), j);
    ShrBit(raw, f.start, j);
    OnesBit(f.Width(), j);
  }

  // ----- building -----

  /** One setter call. */
  datatype Setting = Setting(field: BitField, value: nat)

  datatype Builder = Builder(raw: nat, invalid: Option<BitField>)

  function SetDetached(b: Builder, bits: nat, s: Setting): Builder
    requires s.field.start <= s.field.end < bits
  {
    Builder(Set(s.field, bits, b.raw, s.value),
            if !s.field.logical.Boolean? && s.value > s.field.ValueMask() then Some(s.field) else b.invalid)
  }

  /** The setters called in order on a fresh builder. */
  function Build(settings: seq<Setting>, bits: nat): Builder
    requires forall k :: 0 <= k < |settings| ==> settings[k].field.start <= settings[k].field.end < bits
  {
    if settings == [] then Builder(0, None)
    else SetDetached(Build(settings[..|settings| - 1], bits), bits, settings[|settings| - 1])
  }

  /** Each setter is called at most once, with a bool or an unsigned value. */
  predicate Proper(settings: seq<Setting>, bits: nat) {
    && (forall k :: 0 <= k < |settings| ==>
          && settings[k].field.start <= settings[k].field.end < bits
          && (settings[k].field.logical.Boolean? ==> settings[k].value <= 1 && settings[k].field.start == settings[k].field.end))
    && forall j, k :: 0 <= j < k < |settings| ==> Disjoint(settings[j].field, settings[k].field)
  }

  predicate Sets(s: Setting, i: nat) {
    Covers(s.field, i) && Bit(s.value, i - s.field.start)
  }

  /** A bit of the word is set exactly when the setting that covers it sets it; bits no
      setting covers stay zero. */
  lemma {:induction false} BuildBit(settings: seq<Setting>, bits: nat, i: nat)
    requires Proper(settings, bits)
    ensures Bit(Build(settings, bits).raw, i) <==> exists k :: 0 <= k < |settings| && Sets(settings[k], i)
  {
    if settings == [] {
      ZeroBit(i);
    } else {
      var n := |settings| - 1;
      var before, last := settings[..n], settings[n];
      BuildBit(before, bits, i);
      SetBit(last.field, bits, Build(before, bits).raw, last.value, i);
      BuildFits(before, bits, i);
      if exists k :: 0 <= k < n && Sets(settings[k], i) {
        var k :| 0 <= k < n && Sets(settings[k], i);
        assert Disjoint(settings[k].field, last.field);
        assert Sets(before[k], i);
      }
    }
  }

  lemma {:induction false} BuildFits(settings: seq<Setting>, bits: nat, i: nat)
    requires Proper(settings, bits)
    ensures Bit(Build(settings, bits).raw, i) ==> i < bits
  {
    if settings == [] {
      ZeroBit(i);
    } else {
      var n := |settings| - 1;
      BuildFits(settings[..n], bits, i);
      SetBit(settings[n].field, bits, Build(settings[..n], bits).raw, settings[n].value, i);
    }
  }

  /** Setters called in any order build the same word. */
  lemma AnyOrder(a: seq<Setting>, b: seq<Setting>, bits: nat)
    requires Proper(a, bits) && Proper(b, bits) && multiset(a) == multiset(b)
    ensures Build(a, bits).raw == Build(b, bits).raw
  {
    forall i: nat ensures Bit(Build(a, bits).raw, i) == Bit(Build(b, bits).raw, i) {
      BuildBit(a, bits, i);
      BuildBit(b, bits, i);
      if exists k :: 0 <= k < |a| && Sets(a[k], i) {
        var k :| 0 <= k < |a| && Sets(a[k], i);
        assert a[k] in multiset(b);
      }
      if exists k :: 0 <= k < |b| && Sets(b[k], i) {
        var k :| 0 <= k < |b| && Sets(b[k], i);
        assert b[k] in multiset(a);
      }
    }
    Extensional(Build(a, bits).raw, Build(b, bits).raw);
  }

  /** Every getter returns the value set, whatever was set before and after it. */
  lemma GetterReturns(settings: seq<Setting>, bits: nat, k: nat)
    requires Proper(settings, bits) && k < |settings| && InRange(settings[k].field, settings[k].value)
    ensures Get(settings[k].field, Build(settings, bits).raw) == settings[k].value
  {
    var f, raw := settings[k].field, Build(settings, bits).raw;
    forall j: nat ensures Bit(Get(f, raw), j) == Bit(settings[k].value, j) {
      GetBit(f, raw, j);
      BuildBit(settings, bits, j + f.start);
      if j < f.Width() {
        OnlyCover(settings, bits, k, j + f.start);
      } else {
        FitsBits(settings[k].value, f.Width(), j);
      }
    }
    Extensional(Get(f, raw), settings[k].value);
  }

  lemma OnlyCover(settings: seq<Setting>, bits: nat, k: nat, i: nat)
    requires Proper(settings, bits) && k < |settings| && Covers(settings[k].field, i)
    ensures (exists m :: 0 <= m < |settings| && Sets(settings[m], i)) <==> Sets(settings[k], i)
  {
    forall m | 0 <= m < |settings| && m != k ensures Disjoint(settings[m].field, settings[k].field) {
      assert Disjoint(settings[Min(m, k)].field, settings[Max(m, k)].field);
    }
  }

  /** Bits outside every declared range stay zero. */
  lemma UndeclaredZero(settings: seq<Setting>, bits: nat, i: nat)
    requires Proper(settings, bits) && forall k :: 0 <= k < |settings| ==> !Covers(settings[k].field, i)
    ensures !Bit(Build(settings, bits).raw, i)
  {
    BuildBit(settings, bits, i);
  }

  /** The builder is invalid exactly when some value exceeded its range. */
  lemma {:induction false} InvalidExactly(settings: seq<Setting>, bits: nat)
    requires Proper(settings, bits)
    ensures Build(settings, bits).invalid.Some? <==>
              exists k :: 0 <= k < |settings| && !InRange(settings[k].field, settings[k].value)
  {
    if settings != [] {
      var n := |settings| - 1;
      var before := settings[..n];
      InvalidExactly(before, bits);
      if before != [] && exists k :: 0 <= k < n && !InRange(settings[k].field, settings[k].value) {
        var k :| 0 <= k < n && !InRange(settings[k].field, settings[k].value);
        assert !InRange(before[k].field, before[k].value);
      }
      if settings[n].field.logical.Boolean? {
        assert Pow2(1) == 2;
      }
    }
  }

  /** It names the last setting that did. */
  lemma {:induction false} InvalidNames(settings: seq<Setting>, bits: nat)
    requires Proper(settings, bits) && Build(settings, bits).invalid.Some?
    ensures exists k: nat :: LastExceeding(settings, k) && Build(settings, bits).invalid == Some(settings[k].field)
  {
    hide Set;
    var n := |settings| - 1;
    var before := settings[..n];
    if settings[n].field.logical.Boolean? {
      assert Pow2(1) == 2;
    }
    hide Pow2;
    if InRange(settings[n].field, settings[n].value) {
      InvalidNames(before, bits);
      var k: nat :| LastExceeding(before, k) && Build(before, bits).invalid == Some(before[k].field);
      assert LastExceeding(settings, k);
    } else {
      assert LastExceeding(settings, n);
    }
  }

  ghost predicate LastExceeding(settings: seq<Setting>, k: nat)
    requires forall j :: 0 <= j < |settings| ==> settings[j].field.start <= settings[j].field.end
  {
    && k < |settings| && !InRange(settings[k].field, settings[k].value)
    && forall j :: k < j < |settings| ==> InRange(settings[j].field, settings[j].value)
  }

  // ----- writing and reading the word -----

  datatype WriteOutcome = OutOfRange(field: BitField) | Written(bytes: seq<byte>)

  /** The detached writer: it refuses an invalid builder, else emits the word. */
  function WriteDetached(b: Builder, endian: Endian, width: nat): WriteOutcome {
    if b.invalid.Some? then OutOfRange(b.invalid.value) else Written(EncodeUnsigned(endian, b.raw, width))
  }

  /** Bytes that are missing, from the end of the input on. */
  datatype Shortage = Shortage(offset: nat, additional: nat)

  /** Framing: the word decoded from the leading bytes. */
  function Frame(input: seq<byte>, offset: nat, endian: Endian, width: nat): Result<nat, Shortage> {
    if |input| < width then Err(Shortage(SaturatingAdd(offset, |input|), width - |input|))
    else Ok(DecodeUnsigned(endian, input[..width]))
  }

  /** A word is framed once all its bytes are there, and then whatever follows does not
      matter; until then exactly the missing bytes are asked for. */
  lemma FrameExactly(input: seq<byte>, more: seq<byte>, offset: nat, endian: Endian, width: nat)
    ensures Frame(input, offset, endian, width).Ok? ==>
              && |input| >= width && Frame(input + more, offset, endian, width) == Frame(input, offset, endian, width)
              && EncodeUnsigned(endian, Frame(input, offset, endian, width).value, width) == input[..width]
    ensures Frame(input, offset, endian, width).Err? ==>
              && Frame(input, offset, endian, width).error.offset == Min(offset + |input|, USIZE_MAX)
              && (Frame(input + more, offset, endian, width).Ok? <==>
                    |more| >= Frame(input, offset, endian, width).error.additional)
  {
    if |input| >= width {
      assert (input + more)[..width] == input[..width];
      EncodeDecode(endian, input[..width]);
    }
  }

  /** A build is written exactly when every value was in range, and what is written
      gives every value back, whatever bytes follow. */
  lemma BuildReadsBack(settings: seq<Setting>, endian: Endian, width: nat, rest: seq<byte>, offset: nat)
    requires Proper(settings, 8 * width)
    ensures var w := WriteDetached(Build(settings, 8 * width), endian, width);
            && (w.Written? <==> forall k :: 0 <= k < |settings| ==> InRange(settings[k].field, settings[k].value))
            && (w.Written? ==>
                  && |w.bytes| == width && Frame(w.bytes + rest, offset, endian, width).Ok?
                  && forall k :: 0 <= k < |settings| ==>
                       Get(settings[k].field, Frame(w.bytes + rest, offset, endian, width).value) == settings[k].value)
  {
    var b := Build(settings, 8 * width);
    InvalidExactly(settings, 8 * width);
    if b.invalid.None? {
      WordFits(settings, width);
      DecodeEncode(endian, b.raw, width);
      var bytes := EncodeUnsigned(endian, b.raw, width);
      assert (bytes + rest)[..width] == bytes;
      forall k | 0 <= k < |settings|
        ensures Get(settings[k].field, Frame(bytes + rest, offset, endian, width).value) == settings[k].value
      {
        GetterReturns(settings, 8 * width, k);
      }
    }
  }

  lemma WordFits(settings: seq<Setting>, width: nat)
    requires Proper(settings, 8 * width)
    ensures Build(settings, 8 * width).raw < Pow256(width)
  {
    WholeBytes(width);
    forall i: nat | i >= 8 * width ensures !Bit(Build(settings, 8 * width).raw, i) {
      BuildFits(settings, 8 * width, i);
    }
    BitsFit(Build(settings, 8 * width).raw, 8 * width);
  }
}
