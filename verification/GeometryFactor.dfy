/** The mixed-radix summary filled while walking: four axes of signed components, each
    fixed by the first item that needs it and checked by every later one. */
module GeometryFactor {
  import opened Base
  import opened Bits
  import opened GeometryStorage
  import opened GeometryLookup

  const I16_LIMIT: int := 0x8000

  /** `high` tells that some axis beyond the first matters. */
  datatype Factor = Factor(candidate: bool, valid: bool, high: bool, base: nat)

  /** The place of a component among all four axes. */
  function Component(axis: nat, digit: nat): (c: nat)
    requires axis < FACTOR_AXES && digit < FactorLength(axis)
    ensures c < FACTOR_COMPONENTS
  {
    FactorOffset(axis) + digit
  }

  lemma ComponentsDiffer(axis: nat, digit: nat, other: nat, otherDigit: nat)
    requires axis < FACTOR_AXES && digit < FactorLength(axis) && other < FACTOR_AXES && otherDigit < FactorLength(other)
    ensures Component(axis, digit) == Component(other, otherDigit) <==> axis == other && digit == otherDigit
  {
  }

  predicate Initialized(s: Storage, c: nat)
    requires c < FACTOR_COMPONENTS
  {
    Bit(s[FACTOR_INITIALIZED + c / 8], c % 8)
  }

  function ComponentValue(s: Storage, c: nat): int
    requires c < FACTOR_COMPONENTS
  {
    GetI16(s, c * 2)
  }

  /** Everything about component `d` is as before. */
  ghost predicate SameComponent(before: Storage, after: Storage, d: nat)
    requires d < FACTOR_COMPONENTS
  {
    ComponentValue(after, d) == ComponentValue(before, d) && Initialized(after, d) == Initialized(before, d)
  }

  /** The flag byte of component `c` with its flag set. */
  function Flagged(flags: byte, k: nat): (b: byte)
    requires k < 8
    ensures forall j: nat :: j < 8 ==> (Bit(b, j) <==> Bit(flags, j) || j == k)
  {
    FlagFits(flags, k);
    Or(flags, Shl(1, k))
  }

  lemma FlagFits(flags: byte, k: nat)
    requires k < 8
    ensures Or(flags, Shl(1, k)) < 256
    ensures forall j: nat :: j < 8 ==> (Bit(Or(flags, Shl(1, k)), j) <==> Bit(flags, j) || j == k)
  {
    assert Pow2(8) == 256;
    forall j: nat ensures Bit(Or(flags, Shl(1, k)), j) <==> Bit(flags, j) || j == k {
      OrBit(flags, Shl(1, k), j);
      ShlBit(1, k, j);
      if j > k {
        FitsBits(1, 1, j - k);
      }
    }
    forall j: nat | j >= 8 ensures !Bit(Or(flags, Shl(1, k)), j) {
      FitsBits(flags, 8, j);
    }
    BitsFit(Or(flags, Shl(1, k)), 8);
  }

  method SetFactorComponent(storage: array<byte>, axis: nat, digit: nat, value: int)
    requires storage.Length == STORAGE_BYTES && axis < FACTOR_AXES && digit < FactorLength(axis)
    requires -I16_LIMIT <= value < I16_LIMIT
    modifies storage
    ensures var c := Component(axis, digit);
            && ComponentValue(storage[..], c) == value && Initialized(storage[..], c)
            && forall d: nat :: d < FACTOR_COMPONENTS && d != c ==> SameComponent(old(storage[..]), storage[..], d)
  {
    hide GetI16, Bit;
    var c := Component(axis, digit);
    ghost var before: Storage := storage[..];
    PutI16(storage, c * 2, value);
    ghost var middle: Storage := storage[..];
    storage[FACTOR_INITIALIZED + c / 8] := Flagged(storage[FACTOR_INITIALIZED + c / 8], c % 8);
    ghost var after: Storage := storage[..];
    ValueKept(middle, after, c);
    forall d: nat | d < FACTOR_COMPONENTS && d != c ensures SameComponent(before, after, d) {
      I16Kept(before, middle, c, d);
      ValueKept(middle, after, d);
      FlagKept(before, middle, after, c, d);
    }
  }

  lemma I16Kept(before: Storage, after: Storage, c: nat, d: nat)
    requires c < FACTOR_COMPONENTS && d < FACTOR_COMPONENTS && c != d && Untouched(before, after, c * 2, c * 2 + 2)
    ensures ComponentValue(after, d) == ComponentValue(before, d)
  {
  }

  lemma ValueKept(before: Storage, after: Storage, d: nat)
    requires d < FACTOR_COMPONENTS && forall i :: 0 <= i < FACTOR_INITIALIZED ==> after[i] == before[i]
    ensures ComponentValue(after, d) == ComponentValue(before, d)
  {
  }

  lemma FlagKept(before: Storage, middle: Storage, after: Storage, c: nat, d: nat)
    requires c < FACTOR_COMPONENTS && d < FACTOR_COMPONENTS && c != d && Untouched(before, middle, c * 2, c * 2 + 2)
    requires var at := FACTOR_INITIALIZED + c / 8; after == middle[at := Flagged(middle[at], c % 8)]
    ensures Initialized(after, d) == Initialized(before, d)
  {
    hide Bit;
    assert c / 8 == d / 8 ==> c % 8 != d % 8;
  }

  // ----- what the summary keeps -----

  predicate AxesInitialized(s: Storage, i: nat) {
    forall axis: nat :: axis < FACTOR_AXES ==> AxisInitialized(s, i, axis)
  }

  predicate AxisInitialized(s: Storage, i: nat, axis: nat)
    requires axis < FACTOR_AXES
  {
    Initialized(s, Component(axis, FactorDigit(i, axis)))
  }

  /** Item `i` is predicted, by components that will not change any more. */
  ghost predicate Predicted(s: Storage, base: nat, w: seq<nat>, i: nat)
    requires i < |w|
  {
    AxesInitialized(s, i) && FactorDescribes(s, base, w, i)
  }

  ghost predicate FactorKept(s: Storage, base: nat, w: seq<nat>, n: nat)
    requires n <= |w|
  {
    forall i: nat :: i < n ==> Predicted(s, base, w, i)
  }

  lemma FactorizedDescribes(s: Storage, base: nat, w: seq<nat>)
    requires FactorKept(s, base, w, |w|)
    ensures DescribesFactorized(s, base, w)
  {
    forall i: nat | i < |w| ensures FactorDescribes(s, base, w, i) {
      assert Predicted(s, base, w, i);
    }
  }

  /** Setting a component that no item used keeps every prediction. */
  lemma SetKeeps(before: Storage, after: Storage, base: nat, w: seq<nat>, n: nat, c: nat)
    requires n <= |w| && FactorKept(before, base, w, n) && c < FACTOR_COMPONENTS && !Initialized(before, c)
    requires forall d: nat :: d < FACTOR_COMPONENTS && d != c ==> SameComponent(before, after, d)
    ensures FactorKept(after, base, w, n)
  {
    hide Initialized, GetI16, FactorDigit;
    forall i: nat | i < n ensures Predicted(after, base, w, i) {
      assert Predicted(before, base, w, i);
      forall axis: nat | axis < FACTOR_AXES
        ensures AxisInitialized(after, i, axis)
        ensures FactorComponent(after, axis, FactorDigit(i, axis)) == FactorComponent(before, axis, FactorDigit(i, axis))
      {
        assert AxisInitialized(before, i, axis);
        assert SameComponent(before, after, Component(axis, FactorDigit(i, axis)));
      }
    }
  }

  /** The width of item `index` without one axis. */
  function Known(s: Storage, base: nat, index: nat, axis: nat): int
    requires axis < FACTOR_AXES
  {
    FactorWidth(s, base, index) - FactorComponent(s, axis, FactorDigit(index, axis))
  }

  // ----- which widths four axes can describe -----

  /** What item `digit * block` adds to the first width: no other axis has a digit there. */
  function Delta(w: seq<nat>, axis: nat, digit: nat): int
    requires axis < FACTOR_AXES
  {
    var i := digit * FactorBlock(axis);
    if i < |w| then w[i] as int - w[0] else 0
  }

  predicate DeltaFits(w: seq<nat>, n: nat, axis: nat, digit: nat)
    requires axis < FACTOR_AXES
  {
    digit < FactorLength(axis) && digit * FactorBlock(axis) < n ==> -I16_LIMIT <= Delta(w, axis, digit) < I16_LIMIT
  }

  /** Item `i` has the first width and what each of its digits adds. */
  predicate DeltasAdd(w: seq<nat>, i: nat)
    requires i < |w|
  {
    w[i] == w[0] + Delta(w, 0, FactorDigit(i, 0)) + Delta(w, 1, FactorDigit(i, 1))
                 + Delta(w, 2, FactorDigit(i, 2)) + Delta(w, 3, FactorDigit(i, 3))
  }

  ghost predicate FactorFits(w: seq<nat>, n: nat)
    requires n <= |w|
  {
    && (forall axis: nat, digit: nat :: axis < FACTOR_AXES ==> DeltaFits(w, n, axis, digit))
    && (forall i: nat :: i < n ==> DeltasAdd(w, i))
  }

  /** Some digit beyond the first axis adds something. */
  ghost predicate FactorHigh(w: seq<nat>, n: nat) {
    exists axis: nat, digit: nat :: HighDelta(w, n, axis, digit)
  }

  predicate HighDelta(w: seq<nat>, n: nat, axis: nat, digit: nat) {
    && 0 < axis < FACTOR_AXES && digit < FactorLength(axis) && digit * FactorBlock(axis) < n
    && Delta(w, axis, digit) != 0
  }

  /** A component is set once item `digit * block` was seen, to what that adds. */
  predicate ComponentIs(s: Storage, w: seq<nat>, n: nat, axis: nat, digit: nat)
    requires axis < FACTOR_AXES && digit < FactorLength(axis)
  {
    var c := Component(axis, digit);
    && (Initialized(s, c) <==> digit * FactorBlock(axis) < n)
    && (Initialized(s, c) ==> ComponentValue(s, c) == Delta(w, axis, digit))
  }

  /** How many items an axis has seen when those before `done` have seen item `n`. */
  function Reach(n: nat, done: nat, axis: nat): nat {
    if axis < done then n + 1 else n
  }

  ghost predicate ComponentsAre(s: Storage, w: seq<nat>, n: nat, done: nat) {
    forall axis: nat, digit: nat :: axis < FACTOR_AXES && digit < FactorLength(axis) ==>
      ComponentIs(s, w, Reach(n, done, axis), axis, digit)
  }

  /** What the flag for higher axes says. */
  ghost predicate HighIs(high: bool, w: seq<nat>, n: nat, done: nat) {
    high <==> exists axis: nat, digit: nat :: HighDelta(w, Reach(n, done, axis), axis, digit)
  }

  ghost predicate FactorExact(s: Storage, f: Factor, w: seq<nat>, n: nat) {
    && n <= |w| && (f.valid <==> FactorFits(w, n))
    && (f.valid ==> ComponentsAre(s, w, n, 0) && HighIs(f.high, w, n, 0) && (n > 0 ==> f.base == w[0]))
  }

  /** A digit is never ahead of its item, and alone when it is first seen. */
  lemma DigitSeen(i: nat, axis: nat)
    requires axis < FACTOR_AXES
    ensures FactorDigit(i, axis) * FactorBlock(axis) <= i
    ensures FactorDigit(i, axis) * FactorBlock(axis) == i ==>
              forall other: nat :: other < FACTOR_AXES && other != axis ==> FactorDigit(i, other) == 0
  {
  }

  lemma DigitOf(i: nat, axis: nat, digit: nat)
    requires axis < FACTOR_AXES && digit < FactorLength(axis) && digit * FactorBlock(axis) == i
    ensures FactorDigit(i, axis) == digit
  {
  }

  /** The digit was seen before: the axis is done. */
  lemma AxisStays(s: Storage, high: bool, w: seq<nat>, n: nat, axis: nat)
    requires axis < FACTOR_AXES && ComponentsAre(s, w, n, axis) && HighIs(high, w, n, axis)
    requires Initialized(s, Component(axis, FactorDigit(n, axis)))
    ensures ComponentsAre(s, w, n, axis + 1) && HighIs(high, w, n, axis + 1)
  {
    hide Initialized, GetI16, Delta, FactorDigit;
    var next, seen := axis + 1, FactorDigit(n, axis);
    assert ComponentIs(s, w, Reach(n, axis, axis), axis, seen);
    forall a: nat, d: nat | a < FACTOR_AXES && d < FactorLength(a)
      ensures ComponentIs(s, w, Reach(n, next, a), a, d) && HighDelta(w, Reach(n, next, a), a, d) == HighDelta(w, Reach(n, axis, a), a, d)
    {
      assert ComponentIs(s, w, Reach(n, axis, a), a, d);
      if a == axis && d * FactorBlock(a) == n {
        DigitOf(n, a, d);
      }
    }
    SameHigh(high, w, n, axis, next);
  }

  lemma SameHigh(high: bool, w: seq<nat>, n: nat, done: nat, next: nat)
    requires HighIs(high, w, n, done)
    requires forall a: nat, d: nat :: a < FACTOR_AXES && d < FactorLength(a) ==>
               HighDelta(w, Reach(n, next, a), a, d) == HighDelta(w, Reach(n, done, a), a, d)
    ensures HighIs(high, w, n, next)
  {
    hide Delta;
    if a: nat, d: nat :| HighDelta(w, Reach(n, next, a), a, d) {
      assert HighDelta(w, Reach(n, done, a), a, d);
    }
    if a: nat, d: nat :| HighDelta(w, Reach(n, done, a), a, d) {
      assert HighDelta(w, Reach(n, next, a), a, d);
    }
  }

  /** A digit that was not seen is what the item adds. */
  lemma DeltaKnown(s: Storage, w: seq<nat>, n: nat, axis: nat)
    requires axis < FACTOR_AXES && 0 < n < |w| && ComponentsAre(s, w, n, axis)
    requires !Initialized(s, Component(axis, FactorDigit(n, axis)))
    ensures FactorDigit(n, axis) * FactorBlock(axis) == n
    ensures w[n] - Known(s, w[0], n, axis) == Delta(w, axis, FactorDigit(n, axis))
  {
    hide Initialized, GetI16, FactorDigit;
    DigitSeen(n, axis);
    assert ComponentIs(s, w, Reach(n, axis, axis), axis, FactorDigit(n, axis));
    forall other: nat | other < FACTOR_AXES && other != axis ensures FactorComponent(s, other, FactorDigit(n, other)) == 0 {
      assert ComponentIs(s, w, Reach(n, axis, other), other, 0);
    }
  }

  /** Setting it does the axis. */
  lemma AxisSet(before: Storage, s: Storage, high: bool, w: seq<nat>, n: nat, axis: nat)
    requires axis < FACTOR_AXES && 0 < n < |w| && ComponentsAre(before, w, n, axis) && HighIs(high, w, n, axis)
    requires var digit := FactorDigit(n, axis); var c := Component(axis, digit);
             && digit * FactorBlock(axis) == n && ComponentValue(s, c) == Delta(w, axis, digit) && Initialized(s, c)
             && forall d: nat :: d < FACTOR_COMPONENTS && d != c ==> SameComponent(before, s, d)
    ensures ComponentsAre(s, w, n, axis + 1)
    ensures HighIs(high || (axis > 0 && Delta(w, axis, FactorDigit(n, axis)) != 0), w, n, axis + 1)
  {
    hide Initialized, GetI16, Delta, FactorDigit;
    var next, seen := axis + 1, FactorDigit(n, axis);
    forall a: nat, d: nat | a < FACTOR_AXES && d < FactorLength(a)
      ensures ComponentIs(s, w, Reach(n, next, a), a, d)
      ensures a != axis || d != seen ==> HighDelta(w, Reach(n, next, a), a, d) == HighDelta(w, Reach(n, axis, a), a, d)
    {
      assert ComponentIs(before, w, Reach(n, axis, a), a, d);
      ComponentsDiffer(axis, seen, a, d);
      if a != axis || d != seen {
        assert SameComponent(before, s, Component(a, d));
        if a == axis && d * FactorBlock(a) == n {
          DigitOf(n, a, d);
        }
      }
    }
    HighMore(high, w, n, axis, seen);
  }

  lemma HighMore(high: bool, w: seq<nat>, n: nat, axis: nat, seen: nat)
    requires HighIs(high, w, n, axis) && axis < FACTOR_AXES && seen < FactorLength(axis) && seen * FactorBlock(axis) == n
    requires forall a: nat, d: nat :: a < FACTOR_AXES && d < FactorLength(a) && (a != axis || d != seen) ==>
               HighDelta(w, Reach(n, axis + 1, a), a, d) == HighDelta(w, Reach(n, axis, a), a, d)
    ensures HighIs(high || (axis > 0 && Delta(w, axis, seen) != 0), w, n, axis + 1)
  {
    hide Delta;
    var next := axis + 1;
    if a: nat, d: nat :| HighDelta(w, Reach(n, next, a), a, d) {
      assert a != axis || d != seen ==> HighDelta(w, Reach(n, axis, a), a, d);
    }
    if a: nat, d: nat :| HighDelta(w, Reach(n, axis, a), a, d) {
      assert HighDelta(w, Reach(n, next, a), a, d);
    }
    if axis > 0 && Delta(w, axis, seen) != 0 {
      assert HighDelta(w, Reach(n, next, axis), axis, seen);
    }
  }

  /** All axes are done. */
  lemma AxesDone(s: Storage, high: bool, w: seq<nat>, n: nat)
    requires n < |w| && ComponentsAre(s, w, n, FACTOR_AXES) && HighIs(high, w, n, FACTOR_AXES) && FactorFits(w, n)
    ensures ComponentsAre(s, w, n + 1, 0) && HighIs(high, w, n + 1, 0)
    ensures FactorFits(w, n + 1) <==> FactorWidth(s, w[0], n) == w[n]
  {
    hide Initialized, GetI16, Delta, FactorDigit;
    var more := n + 1;
    forall a: nat, d: nat | a < FACTOR_AXES && d < FactorLength(a)
      ensures ComponentIs(s, w, Reach(more, 0, a), a, d)
      ensures HighDelta(w, Reach(more, 0, a), a, d) == HighDelta(w, Reach(n, FACTOR_AXES, a), a, d)
    {
      assert ComponentIs(s, w, Reach(n, FACTOR_AXES, a), a, d);
    }
    DoneHigh(high, w, n);
    DoneFits(s, w, n);
  }

  lemma DoneHigh(high: bool, w: seq<nat>, n: nat)
    requires HighIs(high, w, n, FACTOR_AXES)
    ensures HighIs(high, w, n + 1, 0)
  {
    hide Delta;
    var more := n + 1;
    if a: nat, d: nat :| HighDelta(w, Reach(more, 0, a), a, d) {
      assert HighDelta(w, Reach(n, FACTOR_AXES, a), a, d);
    }
    if a: nat, d: nat :| HighDelta(w, Reach(n, FACTOR_AXES, a), a, d) {
      assert HighDelta(w, Reach(more, 0, a), a, d);
    }
  }

  lemma DoneFits(s: Storage, w: seq<nat>, n: nat)
    requires n < |w| && ComponentsAre(s, w, n, FACTOR_AXES) && FactorFits(w, n)
    ensures FactorFits(w, n + 1) <==> FactorWidth(s, w[0], n) == w[n]
  {
    hide Initialized, GetI16, Delta, FactorDigit;
    forall a: nat | a < FACTOR_AXES ensures FactorComponent(s, a, FactorDigit(n, a)) == Delta(w, a, FactorDigit(n, a)) {
      DigitSeen(n, a);
      assert ComponentIs(s, w, Reach(n, FACTOR_AXES, a), a, FactorDigit(n, a));
    }
    assert DeltasAdd(w, n) <==> FactorWidth(s, w[0], n) == w[n];
    var more := n + 1;
    forall a: nat, d: nat | a < FACTOR_AXES ensures DeltaFits(w, more, a, d) {
      if d < FactorLength(a) {
        assert ComponentIs(s, w, Reach(n, FACTOR_AXES, a), a, d);
        ValueFits(s, Component(a, d));
      }
    }
    assert FactorFits(w, more) ==> DeltasAdd(w, n);
  }

  lemma ValueFits(s: Storage, c: nat)
    requires c < FACTOR_COMPONENTS
    ensures -I16_LIMIT <= ComponentValue(s, c) < I16_LIMIT
  {
  }

  /** What does not fit so far does not fit. */
  lemma FitsLess(w: seq<nat>, n: nat)
    requires n < |w|
    ensures FactorFits(w, n + 1) ==> FactorFits(w, n)
  {
    hide Delta, DeltasAdd;
    var more := n + 1;
    if FactorFits(w, more) {
      forall axis: nat, digit: nat | axis < FACTOR_AXES ensures DeltaFits(w, n, axis, digit) {
        assert DeltaFits(w, more, axis, digit);
      }
    }
  }

  method PushFactor(storage: array<byte>, f: Factor, index: nat, width: nat, ghost w: seq<nat>) returns (g: Factor)
    requires storage.Length == STORAGE_BYTES && index < |w| && w[index] == width
    requires f.valid
    modifies storage
    ensures g.candidate == f.candidate && g.base == (if index == 0 then width else f.base)
    ensures g.valid && old(FactorKept(storage[..], f.base, w, index)) ==> FactorKept(storage[..], g.base, w, index + 1)
    ensures old(FactorExact(storage[..], f, w, index)) ==> FactorExact(storage[..], g, w, index + 1)
  {
    hide Initialized, GetI16, FactorDigit, FactorWidth, FactorComponent, FactorKept, ComponentsAre, HighIs, FactorFits, Delta;
    ghost var was := FactorKept(storage[..], f.base, w, index);
    ghost var exact := FactorExact(storage[..], f, w, index);
    FitsLess(w, index);
    g := f;
    if index == 0 {
      g := g.(base := width);
      ghost var before: Storage := storage[..];
      for axis := 0 to FACTOR_AXES
        invariant forall d: nat :: d < FACTOR_COMPONENTS && !IsFirst(d, axis) ==> SameComponent(before, storage[..], d)
        invariant forall a: nat :: a < axis ==> ComponentValue(storage[..], FactorOffset(a)) == 0 && Initialized(storage[..], FactorOffset(a))
      {
        ghost var middle: Storage := storage[..];
        SetFactorComponent(storage, axis, 0, 0);
        FirstsKept(before, middle, storage[..], axis);
      }
      NothingPredicted(storage[..], width, w);
      if exact {
        FirstsAre(before, storage[..], g.high, w);
      }
    }
    var axis := 0;
    while axis < FACTOR_AXES
      invariant 0 <= axis <= FACTOR_AXES && g.candidate == f.candidate && g.base == (if index == 0 then width else f.base)
      invariant g.valid && (was ==> FactorKept(storage[..], g.base, w, index))
      invariant forall a: nat :: a < axis ==> AxisInitialized(storage[..], index, a)
      invariant exact ==>
                  && ComponentsAre(storage[..], w, index, if index == 0 then FACTOR_AXES else axis)
                  && HighIs(g.high, w, index, if index == 0 then FACTOR_AXES else axis)
    {
      var digit := FactorDigit(index, axis);
      var c := Component(axis, digit);
      ghost var before: Storage := storage[..];
      if !Initialized(storage[..], c) {
        var delta := width - Known(storage[..], g.base, index, axis);
        if exact {
          FirstDone(before, w, index, axis);
          DeltaKnown(before, w, index, axis);
        }
        if !(-I16_LIMIT <= delta < I16_LIMIT) {
          g := g.(valid := false);
          if exact {
            DeltaRefused(w, index, axis, digit);
          }
          return;
        }
        SetFactorComponent(storage, axis, digit, delta);
        if was {
          SetKeeps(before, storage[..], g.base, w, index, c);
        }
        EarlierAxes(before, storage[..], index, axis);
        if exact {
          AxisSet(before, storage[..], g.high, w, index, axis);
        }
        g := g.(high := g.high || (axis > 0 && delta != 0));
      } else if exact && index > 0 {
        AxisStays(before, g.high, w, index, axis);
      }
      axis := axis + 1;
    }
    if exact {
      AxesDone(storage[..], g.high, w, index);
    }
    if FactorWidth(storage[..], g.base, index) == width {
      if was {
        OneMorePredicted(storage[..], g.base, w, index);
      }
    } else {
      g := g.(valid := false);
    }
  }

  /** A component of digit zero of one of the first axes. */
  predicate IsFirst(c: nat, axes: nat) {
    exists a: nat :: a < axes && a < FACTOR_AXES && c == FactorOffset(a)
  }

  lemma FirstsKept(before: Storage, middle: Storage, after: Storage, axis: nat)
    requires axis < FACTOR_AXES
    requires forall d: nat :: d < FACTOR_COMPONENTS && !IsFirst(d, axis) ==> SameComponent(before, middle, d)
    requires forall a: nat :: a < axis ==> ComponentValue(middle, FactorOffset(a)) == 0 && Initialized(middle, FactorOffset(a))
    requires ComponentValue(after, Component(axis, 0)) == 0 && Initialized(after, Component(axis, 0))
    requires forall d: nat :: d < FACTOR_COMPONENTS && d != Component(axis, 0) ==> SameComponent(middle, after, d)
    ensures forall d: nat :: d < FACTOR_COMPONENTS && !IsFirst(d, axis + 1) ==> SameComponent(before, after, d)
    ensures forall a: nat :: a < axis + 1 ==> ComponentValue(after, FactorOffset(a)) == 0 && Initialized(after, FactorOffset(a))
  {
    hide Initialized, GetI16;
    forall d: nat | d < FACTOR_COMPONENTS && !IsFirst(d, axis + 1) ensures SameComponent(before, after, d) {
      assert d != FactorOffset(axis) && !IsFirst(d, axis);
      assert SameComponent(before, middle, d) && SameComponent(middle, after, d);
    }
    forall a: nat | a < axis + 1 ensures ComponentValue(after, FactorOffset(a)) == 0 && Initialized(after, FactorOffset(a)) {
      if a < axis {
        assert FactorOffset(a) != Component(axis, 0);
        assert SameComponent(middle, after, FactorOffset(a));
      }
    }
  }

  /** The first item sets digit zero of every axis. */
  lemma FirstsAre(before: Storage, s: Storage, high: bool, w: seq<nat>)
    requires |w| > 0 && ComponentsAre(before, w, 0, 0) && HighIs(high, w, 0, 0)
    requires forall d: nat :: d < FACTOR_COMPONENTS && !IsFirst(d, FACTOR_AXES) ==> SameComponent(before, s, d)
    requires forall a: nat :: a < FACTOR_AXES ==> ComponentValue(s, FactorOffset(a)) == 0 && Initialized(s, FactorOffset(a))
    ensures ComponentsAre(s, w, 0, FACTOR_AXES) && HighIs(high, w, 0, FACTOR_AXES)
  {
    hide Initialized, GetI16;
    forall a: nat, d: nat | a < FACTOR_AXES && d < FactorLength(a)
      ensures ComponentIs(s, w, Reach(0, FACTOR_AXES, a), a, d)
      ensures HighDelta(w, Reach(0, FACTOR_AXES, a), a, d) == HighDelta(w, Reach(0, 0, a), a, d)
    {
      assert ComponentIs(before, w, Reach(0, 0, a), a, d);
      if d > 0 {
        NotFirst(a, d);
        assert SameComponent(before, s, Component(a, d));
      }
    }
    SameHigh(high, w, 0, 0, FACTOR_AXES);
  }

  lemma NotFirst(axis: nat, digit: nat)
    requires axis < FACTOR_AXES && 0 < digit < FactorLength(axis)
    ensures !IsFirst(Component(axis, digit), FACTOR_AXES)
  {
  }

  lemma FirstDone(s: Storage, w: seq<nat>, index: nat, axis: nat)
    requires axis < FACTOR_AXES && index < |w|
    requires ComponentsAre(s, w, index, if index == 0 then FACTOR_AXES else axis)
    ensures index == 0 ==> Initialized(s, Component(axis, FactorDigit(index, axis)))
  {
    hide Initialized, GetI16;
    if index == 0 {
      assert ComponentIs(s, w, Reach(index, FACTOR_AXES, axis), axis, 0);
    }
  }

  lemma DeltaRefused(w: seq<nat>, n: nat, axis: nat, digit: nat)
    requires n < |w| && axis < FACTOR_AXES && digit < FactorLength(axis) && digit * FactorBlock(axis) == n
    requires !(-I16_LIMIT <= Delta(w, axis, digit) < I16_LIMIT)
    ensures !FactorFits(w, n + 1)
  {
    hide Delta;
    var more := n + 1;
    assert !DeltaFits(w, more, axis, digit);
  }

  lemma NothingPredicted(s: Storage, base: nat, w: seq<nat>)
    ensures FactorKept(s, base, w, 0)
  {
  }

  lemma EarlierAxes(before: Storage, after: Storage, index: nat, axis: nat)
    requires axis < FACTOR_AXES && Initialized(after, Component(axis, FactorDigit(index, axis)))
    requires var c := Component(axis, FactorDigit(index, axis));
             forall d: nat :: d < FACTOR_COMPONENTS && d != c ==> SameComponent(before, after, d)
    requires forall a: nat :: a < axis ==> AxisInitialized(before, index, a)
    ensures forall a: nat :: a < axis + 1 ==> AxisInitialized(after, index, a)
  {
    hide Initialized, GetI16, FactorDigit;
    forall a: nat | a < axis + 1 ensures AxisInitialized(after, index, a) {
      if a < axis {
        assert AxisInitialized(before, index, a);
        ComponentsDiffer(axis, FactorDigit(index, axis), a, FactorDigit(index, a));
        assert SameComponent(before, after, Component(a, FactorDigit(index, a)));
      }
    }
  }

  lemma OneMorePredicted(s: Storage, base: nat, w: seq<nat>, n: nat)
    requires n < |w| && FactorKept(s, base, w, n) && FactorWidth(s, base, n) == w[n]
    requires forall a: nat :: a < FACTOR_AXES ==> AxisInitialized(s, n, a)
    ensures FactorKept(s, base, w, n + 1)
  {
    hide Initialized, GetI16, FactorDigit, FactorWidth;
    forall i: nat | i < n + 1 ensures Predicted(s, base, w, i) {
      assert i < n ==> Predicted(s, base, w, i);
    }
  }

  // ----- the whole walk -----

  lemma NothingExact(s: Storage, f: Factor, w: seq<nat>)
    requires s == Zeros(STORAGE_BYTES) && f.valid && !f.high
    ensures FactorExact(s, f, w, 0)
  {
    hide GetI16, Delta;
    forall c: nat | c < FACTOR_COMPONENTS ensures !Initialized(s, c) {
      ZeroBit(c % 8);
    }
  }

  lemma StaysRefused(s: Storage, f: Factor, w: seq<nat>, n: nat)
    requires FactorExact(s, f, w, n) && n < |w| && !f.valid
    ensures FactorExact(s, f, w, n + 1)
  {
    hide FactorFits, ComponentsAre, HighIs;
    FitsLess(w, n);
  }

  lemma ExactEnds(s: Storage, f: Factor, w: seq<nat>)
    requires FactorExact(s, f, w, |w|)
    ensures f.valid <==> FactorFits(w, |w|)
    ensures f.valid ==> (f.high <==> FactorHigh(w, |w|))
  {
    hide FactorFits, ComponentsAre, Delta;
    if a: nat, d: nat :| HighDelta(w, |w|, a, d) {
      assert HighDelta(w, Reach(|w|, 0, a), a, d);
    }
    if a: nat, d: nat :| HighDelta(w, Reach(|w|, 0, a), a, d) {
      assert HighDelta(w, |w|, a, d);
    }
  }
}
