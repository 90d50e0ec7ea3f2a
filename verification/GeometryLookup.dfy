/** Exact item lookup in the compact geometry of one recursive array. Every
    encoding has a predicate that says when its summary describes a sequence of
    item widths, and a lookup proved to return the described range. */
module GeometryLookup {
  import opened Arith
  import opened Base
  import opened Bits
  import opened Errors
  import opened Widths
  import opened GeometryStorage

  datatype Kind =
    Replay | Fixed | Formula | Interval | Ranked | Factorized | RecursiveShape | Periodic | PackedRuns

  type LookupError = ArrayError<RecursiveError>
  type Lookup = Result<Option<Range>, LookupError>

  const I128_LIMIT: int := 0x8000_0000_0000_0000_0000_0000_0000_0000
  type i128 = x: int | -I128_LIMIT <= x < I128_LIMIT

  function CheckedI128(x: int): Option<int> {
    if -I128_LIMIT <= x < I128_LIMIT then Some(x) else None
  }

  /** Reads the stored bits of an `i32` kept in a `u32`. */
  function AsI32(raw: nat): int {
    if raw < 0x8000_0000 then raw else raw - 0x1_0000_0000
  }

  // ----- what each summary describes -----

  ghost predicate DescribesFixed(width: nat, w: seq<nat>) {
    forall i :: 0 <= i < |w| ==> w[i] == width
  }

  ghost predicate DescribesFormula(base: nat, slope: int, w: seq<nat>) {
    forall i :: 0 <= i < |w| ==> w[i] == base + slope * i
  }

  function SegmentItem(s: Storage, segment: nat): nat
    requires segment < INTERVAL_CAPACITY
  {
    GetU32(s, segment * 12)
  }

  function SegmentByte(s: Storage, segment: nat): nat
    requires segment < INTERVAL_CAPACITY
  {
    GetU32(s, segment * 12 + 4)
  }

  function SegmentWidth(s: Storage, segment: nat): nat
    requires segment < INTERVAL_CAPACITY
  {
    GetU32(s, segment * 12 + 8)
  }

  /** Exclusive last item of a segment. */
  function SegmentEnd(s: Storage, segments: nat, segment: nat, count: nat): nat
    requires segment < segments <= INTERVAL_CAPACITY
  {
    if segment + 1 < segments then SegmentItem(s, segment + 1) else count
  }

  /** Segment `k` starts where the items before it end and gives its items one width. */
  ghost predicate SegmentDescribes(s: Storage, segments: nat, w: seq<nat>, k: nat)
    requires k < segments <= INTERVAL_CAPACITY
  {
    var first, end := SegmentItem(s, k), SegmentEnd(s, segments, k, |w|);
    && first < end <= |w|
    && SegmentByte(s, k) == Start(w, first)
    && forall i :: first <= i < end ==> w[i] == SegmentWidth(s, k)
  }

  ghost predicate DescribesInterval(s: Storage, segments: nat, w: seq<nat>) {
    && 1 <= segments <= INTERVAL_CAPACITY
    && SegmentItem(s, 0) == 0
    && forall k: nat :: k < segments ==> SegmentDescribes(s, segments, w, k)
  }

  function CodeWidth(s: Storage, codes: nat, index: nat): nat
    requires codes == RANKED_CODES == PACKED_CODES && index < RANKED_CAPACITY
  {
    CodeBound(s, codes, index);
    GetU16(s, RANKED_PALETTE + GetCode(s, codes, index) * 2)
  }

  function BlockStart(s: Storage, block: nat): nat
    requires block < RANKED_CAPACITY / RANKED_BLOCK
  {
    GetU32(s, RANKED_PREFIXES + block * 4)
  }

  ghost predicate CodeDescribes(s: Storage, w: seq<nat>, item: nat, index: nat)
    requires item < |w| && index < RANKED_CAPACITY
  {
    w[item] == CodeWidth(s, RANKED_CODES, index)
  }

  ghost predicate BlockDescribes(s: Storage, w: seq<nat>, block: nat, item: nat)
    requires item < |w| && block < RANKED_CAPACITY / RANKED_BLOCK
  {
    BlockStart(s, block) == Start(w, item)
  }

  ghost predicate DescribesRanked(s: Storage, w: seq<nat>) {
    && |w| <= RANKED_CAPACITY
    && (forall i: nat :: i < |w| ==> CodeDescribes(s, w, i, i))
    && (forall b: nat :: b * RANKED_BLOCK < |w| ==> BlockDescribes(s, w, b, b * RANKED_BLOCK))
  }

  /** Width that the four components give item `i`. */
  function FactorWidth(s: Storage, base: nat, i: nat): int {
    base
    + FactorComponent(s, 0, FactorDigit(i, 0))
    + FactorComponent(s, 1, FactorDigit(i, 1))
    + FactorComponent(s, 2, FactorDigit(i, 2))
    + FactorComponent(s, 3, FactorDigit(i, 3))
  }

  ghost predicate FactorDescribes(s: Storage, base: nat, w: seq<nat>, i: nat)
    requires i < |w|
  {
    w[i] == FactorWidth(s, base, i)
  }

  ghost predicate DescribesFactorized(s: Storage, base: nat, w: seq<nat>) {
    forall i: nat :: i < |w| ==> FactorDescribes(s, base, w, i)
  }

  function ShapeCode(s: Storage, ordinal: nat): nat
    requires ordinal < PERIOD_CAPACITY
  {
    s[SHAPE_CODES + ordinal]
  }

  function ShapeWidth(s: Storage, ordinal: nat): nat
    requires ordinal < PERIOD_CAPACITY && ShapeCode(s, ordinal) < PALETTE_CAPACITY
  {
    GetU16(s, SHAPE_WIDTHS + ShapeCode(s, ordinal) * 2)
  }

  ghost predicate ShapeTable(s: Storage, period: nat) {
    && 1 <= period <= PERIOD_CAPACITY
    && forall k: nat :: k < period ==> ShapeCode(s, k) < PALETTE_CAPACITY
  }

  ghost function ShapeCycle(s: Storage, n: nat): nat
    requires n <= PERIOD_CAPACITY && forall k: nat :: k < n ==> ShapeCode(s, k) < PALETTE_CAPACITY
  {
    if n == 0 then 0 else ShapeCycle(s, n - 1) + ShapeWidth(s, n - 1)
  }

  ghost predicate DescribesShape(s: Storage, period: nat, cycle: nat, w: seq<nat>) {
    && ShapeTable(s, period)
    && cycle == ShapeCycle(s, period)
    && forall i: nat :: i < |w| ==> ShapeDescribes(s, period, w, i)
  }

  ghost predicate ShapeDescribes(s: Storage, period: nat, w: seq<nat>, i: nat)
    requires ShapeTable(s, period) && i < |w|
  {
    w[i] == ShapeWidth(s, i % period)
  }

  function PeriodWidth(s: Storage, ordinal: nat): nat
    requires ordinal < PERIOD_CAPACITY
  {
    GetU32(s, ordinal * 4)
  }

  ghost function PeriodCycle(s: Storage, n: nat): nat
    requires n <= PERIOD_CAPACITY
  {
    if n == 0 then 0 else PeriodCycle(s, n - 1) + PeriodWidth(s, n - 1)
  }

  ghost predicate DescribesPeriodic(s: Storage, period: nat, runLen: nat, cycle: nat, w: seq<nat>) {
    && 1 <= period <= PERIOD_CAPACITY && runLen >= 1
    && cycle == PeriodCycle(s, period)
    && forall i: nat :: i < |w| ==> RunDescribes(s, period, runLen, w, i)
  }

  ghost predicate RunDescribes(s: Storage, period: nat, runLen: nat, w: seq<nat>, i: nat)
    requires 1 <= period <= PERIOD_CAPACITY && runLen >= 1 && i < |w|
  {
    w[i] == PeriodWidth(s, Rem(Quot(i, runLen), period))
  }

  /** First item of a block of packed runs. */
  function BlockItem(block: nat, runLen: nat): nat {
    block * PACKED_RUN_BLOCK * runLen
  }

  ghost predicate PackedDescribes(s: Storage, runLen: nat, w: seq<nat>, i: nat)
    requires runLen >= 1 && i < |w|
  {
    i / runLen < PACKED_RUN_CAPACITY && CodeDescribes(s, w, i, i / runLen)
  }

  ghost predicate DescribesPacked(s: Storage, runLen: nat, w: seq<nat>) {
    && runLen >= 1
    && (forall i: nat :: i < |w| ==> PackedDescribes(s, runLen, w, i))
    && (forall b: nat :: b < PACKED_RUN_CAPACITY / PACKED_RUN_BLOCK && BlockItem(b, runLen) < |w| ==>
          BlockDescribes(s, w, b, BlockItem(b, runLen)))
  }

  /** The summary describes widths `w`. */
  ghost predicate Describes(kind: Kind, meta: seq<nat>, s: Storage, w: seq<nat>)
    requires |meta| == 3
  {
    match kind
    case Replay => true
    case Fixed => DescribesFixed(meta[0], w)
    case Formula => DescribesFormula(meta[0], AsI32(meta[1]), w)
    case Interval => DescribesInterval(s, meta[0], w)
    case Ranked => DescribesRanked(s, w)
    case Factorized => DescribesFactorized(s, meta[0], w)
    case RecursiveShape => DescribesShape(s, meta[0], meta[1], w)
    case Periodic => DescribesPeriodic(s, meta[0], meta[1], meta[2], w)
    case PackedRuns => DescribesPacked(s, meta[1], w)
  }

  // ----- checked ranges -----

  function DirectRange(start: Option<nat>, width: nat, index: nat, available: nat): Lookup {
    match start
    case None => Err(InvalidExtent(index, USIZE_MAX, available))
    case Some(start) =>
      if start + width > USIZE_MAX || start + width > available
      then Err(InvalidExtent(index, width, Max(available - start, 0)))
      else Ok(Some(Range(start, start + width)))
  }

  function DirectSignedRange(start: int, width: Option<int>, index: nat, available: nat): Lookup {
    if 0 <= start <= USIZE_MAX && width.Some? && 0 <= width.value <= USIZE_MAX
    then DirectRange(Some(start), width.value, index, available)
    else Err(InvalidExtent(index, USIZE_MAX, available))
  }

  function FixedSpan(width: nat, requested: nat, available: nat): Lookup {
    var start := if requested * width <= USIZE_MAX then Some(requested * width) else None;
    DirectRange(start, width, requested, available)
  }

  function FormulaSpan(base: nat, slope: int, item: nat, available: nat): Lookup {
    FormulaRange(base, item * base, slope * item, slope * item * (item - 1), item, available)
  }

  /** The formula from its three products, each of which must fit `i128`. */
  function FormulaRange(base: nat, prefix: int, delta: int, triangle: int, item: nat, available: nat): Lookup {
    var start := if CheckedI128(prefix).Some? && CheckedI128(delta).Some? && CheckedI128(triangle).Some?
                 then CheckedI128(TruncatedHalf(triangle) + prefix) else None;
    var width := if CheckedI128(delta).Some? then CheckedI128(base + delta) else None;
    DirectSignedRange(start.GetOr(-I128_LIMIT), width, item, available)
  }

  /** Division by two that truncates toward zero. */
  function TruncatedHalf(x: int): int {
    if x >= 0 then x / 2 else -((-x) / 2)
  }

  // ----- the four-axis closed form -----

  /** Sum of the first `n` components of an axis. */
  function ClassSum(s: Storage, axis: nat, n: nat): int
    requires axis < FACTOR_AXES && n <= FactorLength(axis)
  {
    if n == 0 then 0 else ClassSum(s, axis, n - 1) + FactorComponent(s, axis, n - 1)
  }

  /** What an axis contributes to items `0 .. n`, one item at a time. */
  ghost function AxisSum(s: Storage, axis: nat, n: nat): int
    requires axis < FACTOR_AXES
  {
    if n == 0 then 0 else AxisSum(s, axis, n - 1) + FactorComponent(s, axis, FactorDigit(n - 1, axis))
  }

  /** Sum of the widths of items `0 .. n`, one item at a time. */
  ghost function FactorSum(s: Storage, base: nat, n: nat): int {
    if n == 0 then 0 else FactorSum(s, base, n - 1) + FactorWidth(s, base, n - 1)
  }

  /** Whole cycles, whole classes of the current cycle, then the tail. */
  function ClosedForm(cycles: nat, total: int, before: int, block: nat, tail: nat, value: int): int {
    cycles * total * block + before * block + tail * value
  }

  function AxisClosedForm(s: Storage, axis: nat, n: nat): int
    requires axis < FACTOR_AXES
  {
    var block, classes := FactorBlock(axis), FactorLength(axis);
    var blocks := n / block;
    var class_ := blocks % classes;
    ClosedForm(blocks / classes, ClassSum(s, axis, classes), ClassSum(s, axis, class_), block, n % block,
               FactorComponent(s, axis, class_))
  }

  lemma ClosedFormTail(cycles: nat, total: int, before: int, block: nat, tail: nat, value: int)
    ensures ClosedForm(cycles, total, before, block, tail + 1, value)
         == ClosedForm(cycles, total, before, block, tail, value) + value
  {
  }

  lemma ClosedFormClass(cycles: nat, total: int, before: int, block: nat, value: int, next: int)
    requires block >= 1
    ensures ClosedForm(cycles, total, before + value, block, 0, next)
         == ClosedForm(cycles, total, before, block, block - 1, value) + value
  {
    assert (before + value) * block == before * block + value * block;
    assert (block - 1) * value == block * value - value;
  }

  lemma ClosedFormCycle(cycles: nat, before: int, block: nat, value: int, next: int)
    requires block >= 1
    ensures ClosedForm(cycles + 1, before + value, 0, block, 0, next)
         == ClosedForm(cycles, before + value, before, block, block - 1, value) + value
  {
    var total := before + value;
    assert (cycles + 1) * total * block == cycles * total * block + total * block by {
      assert (cycles + 1) * total == cycles * total + total;
    }
    assert total * block == before * block + value * block;
    assert (block - 1) * value == block * value - value;
  }

  /** The closed form gains exactly the component of the next item. */
  lemma AxisStep(s: Storage, axis: nat, n: nat)
    requires axis < FACTOR_AXES
    ensures AxisClosedForm(s, axis, n + 1)
         == AxisClosedForm(s, axis, n) + FactorComponent(s, axis, FactorDigit(n, axis))
  {
    var block, classes := FactorBlock(axis), FactorLength(axis);
    var blocks, tail := n / block, n % block;
    var cycles, class_ := blocks / classes, blocks % classes;
    var total, before := ClassSum(s, axis, classes), ClassSum(s, axis, class_);
    var value := FactorComponent(s, axis, class_);
    DivStep(n, block);
    DivStep(blocks, classes);
    if tail + 1 < block {
      ClosedFormTail(cycles, total, before, block, tail, value);
    } else if class_ + 1 < classes {
      ClosedFormClass(cycles, total, before, block, value, FactorComponent(s, axis, class_ + 1));
    } else {
      ClosedFormCycle(cycles, before, block, value, FactorComponent(s, axis, 0));
    }
  }

  lemma {:induction false} AxisExact(s: Storage, axis: nat, n: nat)
    requires axis < FACTOR_AXES
    ensures AxisClosedForm(s, axis, n) == AxisSum(s, axis, n)
  {
    if n > 0 {
      AxisExact(s, axis, n - 1);
      AxisStep(s, axis, n - 1);
    }
  }

  /** What the first `axes` axes contribute together. */
  ghost function AxesSum(s: Storage, axes: nat, n: nat): int
    requires axes <= FACTOR_AXES
  {
    if axes == 0 then 0 else AxesSum(s, axes - 1, n) + AxisSum(s, axes - 1, n)
  }

  lemma AxisUnfold(s: Storage, axis: nat, n: nat)
    requires axis < FACTOR_AXES && n > 0
    ensures AxisSum(s, axis, n) == AxisSum(s, axis, n - 1) + FactorComponent(s, axis, FactorDigit(n - 1, axis))
  {
  }

  lemma AxesUnfold(s: Storage, n: nat)
    ensures AxesSum(s, 4, n) == AxisSum(s, 0, n) + AxisSum(s, 1, n) + AxisSum(s, 2, n) + AxisSum(s, 3, n)
  {
    assert AxesSum(s, 1, n) == AxisSum(s, 0, n);
    assert AxesSum(s, 2, n) == AxesSum(s, 1, n) + AxisSum(s, 1, n);
    assert AxesSum(s, 3, n) == AxesSum(s, 2, n) + AxisSum(s, 2, n);
  }

  lemma {:induction false} FactorSumOfAxes(s: Storage, base: nat, n: nat)
    ensures FactorSum(s, base, n) ==
              base * n + AxisSum(s, 0, n) + AxisSum(s, 1, n) + AxisSum(s, 2, n) + AxisSum(s, 3, n)
  {
    if n > 0 {
      FactorSumOfAxes(s, base, n - 1);
      assert base * n == base * (n - 1) + base;
      AxisUnfold(s, 0, n);
      AxisUnfold(s, 1, n);
      AxisUnfold(s, 2, n);
      AxisUnfold(s, 3, n);
    }
  }

  lemma FactorSumByAxes(s: Storage, base: nat, n: nat)
    ensures FactorSum(s, base, n) == base * n + AxesSum(s, FACTOR_AXES, n)
  {
    FactorSumOfAxes(s, base, n);
    AxesUnfold(s, n);
  }

  /** On described widths the factor sum is the start of the item. */
  lemma {:induction false} FactorSumIsStart(s: Storage, base: nat, w: seq<nat>, n: nat)
    requires DescribesFactorized(s, base, w) && n <= |w|
    ensures FactorSum(s, base, n) == Start(w, n)
  {
    if n > 0 {
      FactorSumIsStart(s, base, w, n - 1);
      assert FactorDescribes(s, base, w, n - 1);
    }
  }

  // ----- the affine formula -----

  /** Twice the triangular part of the formula. */
  function Triangle(slope: int, i: int): int {
    slope * i * (i - 1)
  }

  lemma TriangleStep(slope: int, i: int)
    ensures Triangle(slope, i + 1) == Triangle(slope, i) + 2 * (slope * i)
  {
    var k := slope * i;
    assert slope * (i + 1) * i == k * (i + 1) by {
      Associate(slope, i + 1, i);
      Commute(i + 1, i);
      Associate(slope, i, i + 1);
    }
    Commute(k, i + 1);
    Commute(k, i - 1);
    Distribute(i - 1, 2, k);
  }

  lemma TriangleEven(slope: int, i: int)
    ensures 2 * TruncatedHalf(Triangle(slope, i)) == Triangle(slope, i)
  {
    EvenProduct(i);
    Associate(slope, i, i - 1);
    var m := i * (i - 1) / 2;
    assert i * (i - 1) == 2 * m;
    Commute(slope, 2 * m);
    Associate(2, m, slope);
  }

  lemma {:induction false} FormulaStart(base: nat, slope: int, w: seq<nat>, i: nat)
    requires DescribesFormula(base, slope, w) && i <= |w|
    ensures 2 * Start(w, i) == 2 * (i * base) + Triangle(slope, i)
  {
    if i == 0 {
      assert Triangle(slope, 0) == 0;
    } else {
      FormulaStart(base, slope, w, i - 1);
      TriangleStep(slope, i - 1);
      Distribute(i - 1, 1, base);
    }
  }

  /** No step of the formula leaves the `i128` range. */
  lemma FormulaInRange(base: nat, slope: int, w: seq<nat>, i: nat)
    requires DescribesFormula(base, slope, w) && i < |w| <= USIZE_MAX
    requires base <= U32_MAX && Start(w, |w|) <= USIZE_MAX
    ensures 0 <= i * base <= USIZE_MAX * U32_MAX
    ensures -(U32_MAX as int) <= slope * i <= USIZE_MAX
    ensures -(U32_MAX * USIZE_MAX) as int <= Triangle(slope, i) <= 2 * USIZE_MAX
  {
    Mono(i, base, USIZE_MAX, U32_MAX);
    StartMonotone(w, i + 1, |w|);
    StartMonotone(w, i, |w|);
    assert Start(w, i + 1) == Start(w, i) + w[i];
    FormulaStart(base, slope, w, i);
    assert w[i] == base + slope * i;
    if i == 0 {
      assert Triangle(slope, i) == 0;
    } else if slope * i <= 0 {
      ProductBound(slope * i, i - 1, U32_MAX, USIZE_MAX);
      NonPositive(slope * i, i - 1);
    } else {
      Mono(0, 0, slope * i, i - 1);
    }
  }

  lemma NonPositive(a: int, b: int)
    requires a <= 0 <= b
    ensures a * b <= 0
  {
  }

  lemma FormulaSpanExact(base: nat, slope: int, w: seq<nat>, i: nat, available: nat)
    requires DescribesFormula(base, slope, w) && i < |w| <= USIZE_MAX
    requires base <= U32_MAX && Start(w, |w|) <= available <= USIZE_MAX
    ensures FormulaSpan(base, slope, i, available) == Ok(Some(ItemRange(w, i)))
  {
    FormulaInRange(base, slope, w, i);
    FormulaStart(base, slope, w, i);
    TriangleEven(slope, i);
    StartMonotone(w, i + 1, |w|);
    assert Start(w, i + 1) == Start(w, i) + w[i];
    assert w[i] == base + slope * i;
    FormulaRangeExact(base, i * base, slope * i, Triangle(slope, i), i, available, Start(w, i));
  }

  lemma FormulaRangeExact(base: nat, prefix: int, delta: int, triangle: int, item: nat, available: nat, start: nat)
    requires base <= U32_MAX && available <= USIZE_MAX
    requires 0 <= prefix <= USIZE_MAX * U32_MAX && -(U32_MAX as int) <= delta <= USIZE_MAX
    requires -(U32_MAX * USIZE_MAX) as int <= triangle <= 2 * USIZE_MAX
    requires 2 * TruncatedHalf(triangle) == triangle && 2 * start == 2 * prefix + triangle
    requires base + delta >= 0 && start + base + delta <= available
    ensures FormulaRange(base, prefix, delta, triangle, item, available) == Ok(Some(Range(start, start + base + delta)))
  {
  }

  // ----- tables -----

  lemma {:induction false} ShapePrefix(s: Storage, period: nat, cycle: nat, w: seq<nat>, first: nat, n: nat)
    requires DescribesShape(s, period, cycle, w)
    requires first % period == 0 && n <= period && first + n <= |w|
    ensures Start(w, first + n) == Start(w, first) + ShapeCycle(s, n)
  {
    if n > 0 {
      ShapePrefix(s, period, cycle, w, first, n - 1);
      CycleOffset(first, period, n - 1);
      assert ShapeDescribes(s, period, w, first + n - 1);
    }
  }

  lemma CycleOffset(first: nat, period: nat, k: nat)
    requires k < period && first % period == 0
    ensures (first + k) % period == k && (first + k) / period == first / period
  {
    DivModUnique(first + k, period, first / period, k);
  }

  lemma {:induction false} ShapeCycles(s: Storage, period: nat, cycle: nat, w: seq<nat>, cycles: nat)
    requires DescribesShape(s, period, cycle, w) && cycles * period <= |w|
    ensures Start(w, cycles * period) == cycles * cycle
  {
    if cycles > 0 {
      assert cycles * period == (cycles - 1) * period + period;
      ShapeCycles(s, period, cycle, w, cycles - 1);
      DivModUnique((cycles - 1) * period, period, cycles - 1, 0);
      ShapePrefix(s, period, cycle, w, (cycles - 1) * period, period);
      assert cycles * cycle == (cycles - 1) * cycle + cycle;
    }
  }

  /** Items of one run share its width. */
  lemma RunOf(i: nat, runLen: nat, run: nat)
    requires runLen >= 1 && run * runLen <= i < run * runLen + runLen
    ensures i / runLen == run
  {
    DivModUnique(i, runLen, run, i - run * runLen);
  }

  /** Part of one described run, from its first item to item `i`. */
  lemma PeriodicRun(s: Storage, period: nat, runLen: nat, cycle: nat, w: seq<nat>, run: nat, i: nat)
    requires DescribesPeriodic(s, period, runLen, cycle, w)
    requires run * runLen <= i <= run * runLen + runLen && i <= |w|
    ensures Start(w, i) == Start(w, run * runLen) + (i - run * runLen) * PeriodWidth(s, run % period)
  {
    forall k | run * runLen <= k < i ensures w[k] == PeriodWidth(s, run % period) {
      RunOf(k, runLen, run);
      assert RunDescribes(s, period, runLen, w, k);
    }
    StartUniform(w, run * runLen, i, PeriodWidth(s, run % period));
  }

  /** The described runs before `run`, inside the cycle that starts at run `first`. */
  lemma {:induction false} PeriodicPrefix(s: Storage, period: nat, runLen: nat, cycle: nat, w: seq<nat>, first: nat, n: nat)
    requires DescribesPeriodic(s, period, runLen, cycle, w)
    requires first % period == 0 && n <= period && (first + n) * runLen <= |w|
    ensures first * runLen <= (first + n) * runLen
    ensures Start(w, (first + n) * runLen) == Start(w, first * runLen) + PeriodCycle(s, n) * runLen
  {
    if n > 0 {
      var run := first + n - 1;
      Distribute(run, 1, runLen);
      PeriodicPrefix(s, period, runLen, cycle, w, first, n - 1);
      CycleOffset(first, period, n - 1);
      PeriodicRun(s, period, runLen, cycle, w, run, (run + 1) * runLen);
      Commute(runLen, PeriodWidth(s, n - 1));
      Distribute(PeriodCycle(s, n - 1), PeriodWidth(s, n - 1), runLen);
    }
  }

  lemma {:induction false} PeriodicCycles(s: Storage, period: nat, runLen: nat, cycle: nat, w: seq<nat>, cycles: nat)
    requires DescribesPeriodic(s, period, runLen, cycle, w) && cycles * period * runLen <= |w|
    ensures Start(w, cycles * period * runLen) == cycles * cycle * runLen
  {
    hide PeriodCycle, RunDescribes;
    if cycles > 0 {
      var first := (cycles - 1) * period;
      Distribute(cycles - 1, 1, period);
      Distribute(first, period, runLen);
      DivModUnique(first, period, cycles - 1, 0);
      PeriodicPrefix(s, period, runLen, cycle, w, first, period);
      PeriodicCycles(s, period, runLen, cycle, w, cycles - 1);
      Distribute(cycles - 1, 1, cycle);
      Distribute((cycles - 1) * cycle, cycle, runLen);
    } else {
      assert 0 * period * runLen == 0;
    }
  }

  lemma PeriodicAt(s: Storage, period: nat, runLen: nat, cycle: nat, w: seq<nat>, cycles: nat, class_: nat, i: nat)
    requires DescribesPeriodic(s, period, runLen, cycle, w) && class_ < period && i < |w|
    requires (cycles * period + class_) * runLen <= i < (cycles * period + class_) * runLen + runLen
    ensures Start(w, i) == cycles * cycle * runLen + PeriodCycle(s, class_) * runLen
                           + (i - (cycles * period + class_) * runLen) * PeriodWidth(s, class_)
  {
    var first := cycles * period;
    DivModUnique(first, period, cycles, 0);
    CycleOffset(first, period, class_);
    PeriodicPrefix(s, period, runLen, cycle, w, first, class_);
    PeriodicCycles(s, period, runLen, cycle, w, cycles);
    PeriodicRun(s, period, runLen, cycle, w, first + class_, i);
  }

  /** Whole cycles of runs, whole runs, then whole items. */
  ghost function PeriodicTotal(s: Storage, cycles: nat, cycle: nat, class_: nat, runLen: nat, tail: nat): nat
    requires class_ < PERIOD_CAPACITY
  {
    Times(Times(cycles, cycle), runLen) + Times(PeriodCycle(s, class_), runLen) + Times(tail, PeriodWidth(s, class_))
  }

  /** Where the periodic lookup finds item `i`: whole cycles, whole runs, then the tail. */
  lemma PeriodicStart(s: Storage, period: nat, runLen: nat, cycle: nat, w: seq<nat>, i: nat, run: nat)
    requires DescribesPeriodic(s, period, runLen, cycle, w) && i < |w| && run == Quot(i, runLen)
    ensures Start(w, i) ==
              PeriodicTotal(s, Quot(run, period), cycle, Rem(run, period), runLen, Rem(i, runLen))
  {
    var tail := Rem(i, runLen);
    assert i == run * runLen + tail by { DivMod(i, runLen); }
    var cycles, class_ := Quot(run, period), Rem(run, period);
    assert run == cycles * period + class_ by { DivMod(run, period); }
    PeriodicAt(s, period, runLen, cycle, w, cycles, class_, i);
  }

  /** Part of one packed run, from its first item to item `i`. */
  lemma PackedRun(s: Storage, runLen: nat, w: seq<nat>, run: nat, i: nat)
    requires DescribesPacked(s, runLen, w)
    requires run * runLen <= i <= run * runLen + runLen && i <= |w| && run < PACKED_RUN_CAPACITY
    ensures Start(w, i) == Start(w, run * runLen) + (i - run * runLen) * CodeWidth(s, PACKED_CODES, run)
  {
    forall k | run * runLen <= k < i ensures w[k] == CodeWidth(s, PACKED_CODES, run) {
      RunOf(k, runLen, run);
      assert PackedDescribes(s, runLen, w, k);
    }
    StartUniform(w, run * runLen, i, CodeWidth(s, PACKED_CODES, run));
  }

  // ----- range of the closed form -----

  lemma {:induction false} AxisBound(s: Storage, axis: nat, n: nat)
    requires axis < FACTOR_AXES
    ensures -0x8000 * n <= AxisSum(s, axis, n) <= 0x8000 * n
  {
    if n > 0 {
      AxisBound(s, axis, n - 1);
    }
  }

  lemma {:induction false} AxesBound(s: Storage, axes: nat, n: nat, m: nat)
    requires axes <= FACTOR_AXES && m == 0x8000 * n
    ensures -(axes * m) <= AxesSum(s, axes, n) <= axes * m
  {
    if axes > 0 {
      AxesBound(s, axes - 1, n, m);
      AxisBound(s, axes - 1, n);
      Distribute(axes - 1, 1, m);
    }
  }

  /** Every partial sum of `FactorPrefix` fits `i128`. */
  lemma AxesInRange(s: Storage, axes: nat, n: nat, base: int)
    requires axes <= FACTOR_AXES && n <= USIZE_MAX && 0 <= base <= U32_MAX * USIZE_MAX
    ensures -I128_LIMIT <= base + AxesSum(s, axes, n) < I128_LIMIT
  {
    AxesBound(s, axes, n, 0x8000 * n);
    Mono(axes, 0x8000 * n, 4, 0x8000 * USIZE_MAX);
  }

  // ----- unchecked products of the periodic lookup -----

  lemma {:induction false} CycleWithin(s: Storage, n: nat, m: nat, runLen: nat)
    requires n <= m <= PERIOD_CAPACITY && runLen >= 1
    ensures PeriodCycle(s, n) <= PeriodCycle(s, m) <= PeriodCycle(s, m) * runLen
    decreases m
  {
    if n < m {
      CycleWithin(s, n, m - 1, runLen);
    }
    if PeriodCycle(s, m) > 0 {
      Mono(1, PeriodCycle(s, m), runLen, PeriodCycle(s, m));
      Commute(runLen, PeriodCycle(s, m));
    }
  }

  /** `a.checked_mul(b).and_then(|v| v.checked_mul(c))`. */
  function CheckedProduct(a: nat, b: nat, c: nat): Option<nat> {
    if a * b <= USIZE_MAX && a * b * c <= USIZE_MAX then Some(a * b * c) else None
  }

  lemma ProductFits(a: nat, b: nat, c: nat)
    requires c >= 1 && a * b * c <= USIZE_MAX
    ensures CheckedProduct(a, b, c) == Some(a * b * c)
  {
    if a * b > 0 {
      Mono(a * b, 1, a * b, c);
    }
  }

  // ----- lookups -----

  /** Items of widths `w` fill `available` bytes exactly. */
  ghost predicate Tiles(w: seq<nat>, available: nat) {
    |w| <= USIZE_MAX && Start(w, |w|) == available <= USIZE_MAX
  }

  /** The closed form of one axis, every product of which fits `i128`. */
  method AxisValue(cycles: usize, total: i128, before: i128, block: nat, tail: nat, value: i128) returns (sum: i128)
    requires -0x20_0000 <= total <= 0x20_0000 && -0x20_0000 <= before <= 0x20_0000
    requires block <= 0x2000 && tail <= 0x2000 && -0x8000 <= value <= 0x8000
    ensures sum == ClosedForm(cycles, total, before, block, tail, value)
  {
    ProductBound(cycles, total, USIZE_MAX, 0x20_0000);
    var cycled: i128 := cycles * total;
    ProductBound(cycled, block, USIZE_MAX * 0x20_0000, 0x2000);
    var whole: i128 := cycled * block;
    ProductBound(before, block, 0x20_0000, 0x2000);
    var started: i128 := before * block;
    ProductBound(tail, value, 0x2000, 0x8000);
    var rest: i128 := tail * value;
    var ended: i128 := whole + started;
    sum := ended + rest;
  }

  /** One axis: what its components add up to over items `0 .. items`. */
  method AxisPrefix(s: Storage, axis: nat, items: usize) returns (sum: i128)
    requires axis < FACTOR_AXES
    ensures sum == AxisSum(s, axis, items)
  {
    var block, classes := FactorBlock(axis), FactorLength(axis);
    var blocks := items / block;
    var class_ := blocks % classes;
    var total: i128, before: i128 := 0, 0;
    var component := 0;
    while component < classes
      invariant 0 <= component <= classes
      invariant total == ClassSum(s, axis, component)
      invariant before == ClassSum(s, axis, if component < class_ then component else class_)
      invariant -component * 0x8000 <= total <= component * 0x8000
      invariant -component * 0x8000 <= before <= component * 0x8000
    {
      var value := FactorComponent(s, axis, component);
      total := total + value;
      if component < class_ {
        before := before + value;
      }
      component := component + 1;
    }
    AxisExact(s, axis, items);
    QuotientFits(items, block, classes);
    sum := AxisValue(blocks / classes, total, before, block, items % block, FactorComponent(s, axis, class_));
  }

  lemma QuotientFits(items: nat, block: nat, classes: nat)
    requires items <= USIZE_MAX && block > 0 && classes > 0
    ensures items / block / classes <= items / block <= USIZE_MAX
  {
    QuotientBelow(items, block);
    QuotientBelow(items / block, classes);
  }

  lemma QuotientBelow(n: nat, d: nat)
    requires d > 0
    ensures n / d <= n
  {
    DivMod(n, d);
    Mono(n / d, 1, n / d, d);
  }

  /** Sum of the widths of items `0 .. items` by the four-axis closed form. */
  method FactorPrefix(s: Storage, factorBase: nat, items: usize) returns (r: Result<nat, LookupError>)
    requires factorBase <= U32_MAX
    ensures var exact := FactorSum(s, factorBase, items);
            r == if 0 <= exact <= USIZE_MAX then Ok(exact) else Err(InvalidExtent(items, USIZE_MAX, 0))
  {
    Mono(factorBase, items, U32_MAX, USIZE_MAX);
    var prefix: i128 := factorBase * items;
    ghost var base: int := prefix;
    var axis := 0;
    while axis < FACTOR_AXES
      invariant 0 <= axis <= FACTOR_AXES
      invariant 0 <= base <= U32_MAX * USIZE_MAX
      invariant prefix == base + AxesSum(s, axis, items)
    {
      AxesInRange(s, axis + 1, items, base);
      var sum := AxisPrefix(s, axis, items);
      prefix := prefix + sum;
      axis := axis + 1;
    }
    FactorSumByAxes(s, factorBase, items);
    if 0 <= prefix <= USIZE_MAX {
      r := Ok(prefix);
    } else {
      r := Err(InvalidExtent(items, USIZE_MAX, 0));
    }
  }
 
  /** What every lookup ends with: the item's start and width give its range. */
  lemma RangeOf(w: seq<nat>, i: nat, available: nat, start: nat, width: nat)
    requires Tiles(w, available) && i < |w| && start == Start(w, i) && width == w[i]
    ensures start + width <= available
    ensures DirectRange(Some(start), width, i, available) == Ok(Some(ItemRange(w, i)))
  {
    StartMonotone(w, i + 1, |w|);
  }

  /** Starts never pass the end of the tiling. */
  lemma StartWithin(w: seq<nat>, i: nat, available: nat)
    requires Tiles(w, available) && i <= |w|
    ensures Start(w, i) <= available
  {
    StartMonotone(w, i, |w|);
  }

  lemma FixedSpanExact(width: nat, w: seq<nat>, i: nat, available: nat)
    requires DescribesFixed(width, w) && Tiles(w, available) && i < |w|
    ensures FixedSpan(width, i, available) == Ok(Some(ItemRange(w, i)))
  {
    StartUniform(w, 0, i, width);
    StartWithin(w, i, available);
    RangeOf(w, i, available, Start(w, i), width);
  }

  method FactorizedSpan(s: Storage, factorBase: nat, requested: usize, available: usize, ghost w: seq<nat>)
    returns (r: Lookup)
    requires factorBase <= U32_MAX && DescribesFactorized(s, factorBase, w) && Tiles(w, available) && requested < |w|
    ensures r == Ok(Some(ItemRange(w, requested)))
  {
    StartWithin(w, requested, available);
    StartWithin(w, requested + 1, available);
    FactorSumIsStart(s, factorBase, w, requested);
    FactorSumIsStart(s, factorBase, w, requested + 1);
    var first := FactorPrefix(s, factorBase, requested);
    var last := FactorPrefix(s, factorBase, requested + 1);
    match (first, last) {
      case (Ok(start), Ok(end)) =>
        if end < start {
          return Err(InvalidExtent(requested, USIZE_MAX, available));
        }
        RangeOf(w, requested, available, start, end - start);
        r := DirectRange(Some(start), end - start, requested, available);
      case (Err(e), _) => r := Err(e);
      case (_, Err(e)) => r := Err(e);
    }
  }

  /** Item `i` of a described segment. */
  lemma SegmentStart(s: Storage, segments: nat, w: seq<nat>, k: nat, i: nat)
    requires DescribesInterval(s, segments, w) && k < segments
    requires SegmentItem(s, k) <= i < SegmentEnd(s, segments, k, |w|)
    ensures i < |w| && w[i] == SegmentWidth(s, k)
    ensures Start(w, i) == SegmentByte(s, k) + (i - SegmentItem(s, k)) * SegmentWidth(s, k)
  {
    assert SegmentDescribes(s, segments, w, k);
    StartUniform(w, SegmentItem(s, k), i, SegmentWidth(s, k));
  }

  /** Finds the last segment that starts at or before the item. */
  method IntervalSpan(s: Storage, segments: nat, requested: usize, available: usize, ghost w: seq<nat>)
    returns (r: Lookup)
    requires DescribesInterval(s, segments, w) && Tiles(w, available) && requested < |w|
    ensures r == Ok(Some(ItemRange(w, requested)))
  {
    var selected := 0;
    var segment := 1;
    while segment < segments
      invariant 1 <= segment <= segments && selected == segment - 1
      invariant SegmentItem(s, selected) <= requested
    {
      if SegmentItem(s, segment) > requested {
        break;
      }
      selected := segment;
      segment := segment + 1;
    }
    SegmentRangeExact(s, segments, w, selected, requested, available);
    r := SegmentRange(s, selected, requested, available);
  }

  /** The range of an item inside one segment. */
  function SegmentRange(s: Storage, segment: nat, requested: nat, available: nat): Lookup
    requires segment < INTERVAL_CAPACITY && SegmentItem(s, segment) <= requested
  {
    var width := SegmentWidth(s, segment);
    var offset := Times(requested - SegmentItem(s, segment), width);
    if offset > USIZE_MAX then Err(InvalidExtent(requested, USIZE_MAX, available))
    else DirectRange(CheckedAdd(SegmentByte(s, segment), offset), width, requested, available)
  }

  lemma SegmentRangeExact(s: Storage, segments: nat, w: seq<nat>, k: nat, i: nat, available: nat)
    requires DescribesInterval(s, segments, w) && Tiles(w, available) && k < segments
    requires SegmentItem(s, k) <= i < SegmentEnd(s, segments, k, |w|)
    ensures i < |w| && SegmentRange(s, k, i, available) == Ok(Some(ItemRange(w, i)))
  {
    SegmentStart(s, segments, w, k, i);
    StartWithin(w, i, available);
    RangeOf(w, i, available, Start(w, i), w[i]);
  }

  /** Adds class widths from the stored start of the item's block. */
  method RankedSpan(s: Storage, requested: usize, available: usize, ghost w: seq<nat>) returns (r: Lookup)
    requires DescribesRanked(s, w) && Tiles(w, available) && requested < |w|
    ensures r == Ok(Some(ItemRange(w, requested)))
  {
    var block := requested / RANKED_BLOCK;
    var first := block * RANKED_BLOCK;
    assert BlockDescribes(s, w, block, block * RANKED_BLOCK);
    var start := BlockStart(s, block);
    var item := first;
    while item < requested
      invariant first <= item <= requested
      invariant start == Start(w, item)
    {
      assert CodeDescribes(s, w, item, item);
      StartWithin(w, item + 1, available);
      var next := CheckedAdd(start, CodeWidth(s, RANKED_CODES, item));
      if next.None? {
        return Err(InvalidExtent(requested, USIZE_MAX, available));
      }
      start := next.value;
      item := item + 1;
    }
    assert CodeDescribes(s, w, requested, requested);
    var width := CodeWidth(s, RANKED_CODES, requested);
    RangeOf(w, requested, available, start, width);
    r := DirectRange(Some(start), width, requested, available);
  }

  /** Item `first + k` of a cycle that starts at item `first`. */
  /** Start of the item at `i`, the table describing all items before it. */
  lemma ShapeStartOf(s: Storage, period: nat, cycle: nat, w: seq<nat>, i: nat)
    requires DescribesShape(s, period, cycle, w) && i <= |w|
    ensures ShapeTable(s, period) && Start(w, i) == Times(i / period, cycle) + ShapeCycle(s, i % period)
  {
    hide Start;
    CycleFloor(i, period);
    ShapeCycles(s, period, cycle, w, i / period);
    ShapePrefix(s, period, cycle, w, i - i % period, i % period);
  }

  lemma CycleFloor(i: nat, period: nat)
    requires period > 0
    ensures i % period <= i && i - i % period == (i / period) * period && (i - i % period) % period == 0
  {
    DivMod(i, period);
    Mono(0, 0, i / period, period);
    DivModUnique((i / period) * period, period, i / period, 0);
  }

  /** The range that a table of shapes gives: whole cycles, then the classes before the
      item. */
  ghost function ShapeRange(s: Storage, period: nat, cycle: nat, requested: nat, available: nat): Lookup
    requires ShapeTable(s, period)
  {
    var tail := requested % period;
    var start := Times(requested / period, cycle) + ShapeCycle(s, tail);
    if start > USIZE_MAX then Err(InvalidExtent(requested, USIZE_MAX, available))
    else DirectRange(Some(start), ShapeWidth(s, tail), requested, available)
  }

  /** Up to the first item that the table gives a wrong width, lookup finds the items;
      there it does not. */
  lemma ShapeRangeFirst(s: Storage, period: nat, cycle: nat, w: seq<nat>, i: nat, available: nat)
    requires ShapeTable(s, period) && cycle == ShapeCycle(s, period) && Tiles(w, available) && i < |w|
    requires forall k: nat :: k < i ==> ShapeDescribes(s, period, w, k)
    ensures ShapeRange(s, period, cycle, i, available) == Ok(Some(ItemRange(w, i))) <==> ShapeDescribes(s, period, w, i)
  {
    hide Start, ShapeCycle, ShapeWidth;
    var before := w[..i];
    forall k: nat | k < |before| ensures ShapeDescribes(s, period, before, k) {
      assert ShapeDescribes(s, period, w, k);
    }
    ShapeStartOf(s, period, cycle, before, i);
    StartPrefix(before, w, i);
    StartNext(w, i);
    StartWithin(w, i, available);
    StartWithin(w, i + 1, available);
  }

  /** Lookup finds every item exactly when the table describes them all. */
  lemma ShapeRangeExact(s: Storage, period: nat, cycle: nat, w: seq<nat>, available: nat)
    requires ShapeTable(s, period) && cycle == ShapeCycle(s, period) && Tiles(w, available)
    ensures (forall i: nat :: i < |w| ==> ShapeRange(s, period, cycle, i, available) == Ok(Some(ItemRange(w, i)))) <==>
              DescribesShape(s, period, cycle, w)
  {
    hide ShapeRange, ShapeDescribes, Tiles;
    if DescribesShape(s, period, cycle, w) {
      forall i: nat | i < |w| ensures ShapeRange(s, period, cycle, i, available) == Ok(Some(ItemRange(w, i))) {
        ShapeRangeFirst(s, period, cycle, w, i, available);
      }
    } else {
      var i := FirstMisdescribed(s, period, w, 0);
      ShapeRangeFirst(s, period, cycle, w, i, available);
    }
  }

  lemma FirstMisdescribed(s: Storage, period: nat, w: seq<nat>, k: nat) returns (i: nat)
    requires ShapeTable(s, period) && k <= |w| && exists j: nat :: j < |w| && !ShapeDescribes(s, period, w, j)
    requires forall j: nat :: j < k ==> ShapeDescribes(s, period, w, j)
    ensures i < |w| && !ShapeDescribes(s, period, w, i) && forall j: nat :: j < i ==> ShapeDescribes(s, period, w, j)
    decreases |w| - k
  {
    hide ShapeDescribes;
    if k < |w| && ShapeDescribes(s, period, w, k) {
      i := FirstMisdescribed(s, period, w, k + 1);
    } else {
      i := k;
    }
  }

  /** Whole cycles, then the shape classes before the item. */
  method ShapeSpan(s: Storage, period: nat, cycle: nat, requested: usize, available: usize) returns (r: Lookup)
    requires ShapeTable(s, period)
    ensures r == ShapeRange(s, period, cycle, requested, available)
  {
    hide ShapeCycle, ShapeWidth;
    var tail := requested % period;
    ghost var whole := ShapeCycle(s, tail);
    var start := Times(requested / period, cycle);
    if start > USIZE_MAX {
      return Err(InvalidExtent(requested, USIZE_MAX, available));
    }
    assert ShapeCycle(s, 0) == 0 by { ShapeCycleNext(s, 0); }
    ghost var first := start;
    for ordinal := 0 to tail
      invariant start == first + ShapeCycle(s, ordinal) <= USIZE_MAX
    {
      ShapeCycleNext(s, ordinal);
      ShapeCycleGrows(s, ordinal + 1, tail);
      var next := CheckedAdd(start, ShapeWidth(s, ordinal));
      if next.None? {
        return Err(InvalidExtent(requested, USIZE_MAX, available));
      }
      start := next.value;
    }
    r := DirectRange(Some(start), ShapeWidth(s, tail), requested, available);
  }

  lemma ShapeCycleNext(s: Storage, n: nat)
    requires n < PERIOD_CAPACITY && forall k: nat :: k <= n ==> ShapeCode(s, k) < PALETTE_CAPACITY
    ensures ShapeCycle(s, 0) == 0 && ShapeCycle(s, n + 1) == ShapeCycle(s, n) + ShapeWidth(s, n)
  {
  }

  lemma {:induction false} ShapeCycleGrows(s: Storage, n: nat, k: nat)
    requires n <= k <= PERIOD_CAPACITY && forall j: nat :: j < k ==> ShapeCode(s, j) < PALETTE_CAPACITY
    ensures ShapeCycle(s, n) <= ShapeCycle(s, k)
    decreases k
  {
    if n < k {
      ShapeCycleGrows(s, n, k - 1);
    }
  }

  /** The width that the periodic table gives item `i`. */
  lemma PeriodicWidth(s: Storage, period: nat, runLen: nat, cycle: nat, w: seq<nat>, i: nat, run: nat)
    requires DescribesPeriodic(s, period, runLen, cycle, w) && i < |w| && run == Quot(i, runLen)
    ensures w[i] == PeriodWidth(s, Rem(run, period))
  {
    assert RunDescribes(s, period, runLen, w, i);
  }

  /** Sum of the table widths before class `class_`. */
  method PeriodPrefix(s: Storage, class_: nat, runLen: nat, available: usize)
    returns (prefix: Option<usize>)
    requires class_ < PERIOD_CAPACITY && runLen >= 1 && PeriodCycle(s, class_) * runLen <= available
    ensures prefix == Some(PeriodCycle(s, class_))
  {
    var sum: usize := 0;
    var ordinal := 0;
    while ordinal < class_
      invariant 0 <= ordinal <= class_
      invariant sum == PeriodCycle(s, ordinal)
    {
      CycleWithin(s, ordinal + 1, class_, runLen);
      var next := CheckedAdd(sum, PeriodWidth(s, ordinal));
      if next.None? {
        return None;
      }
      sum := next.value;
      ordinal := ordinal + 1;
    }
    prefix := Some(sum);
  }

  /** Whole cycles of runs, the runs before the item's run, then the tail. */
  method PeriodicSpan(s: Storage, period: nat, runLen: nat, cycle: nat, requested: usize, available: usize,
                      ghost w: seq<nat>)
    returns (r: Lookup)
    requires DescribesPeriodic(s, period, runLen, cycle, w) && Tiles(w, available) && requested < |w|
    ensures r == Ok(Some(ItemRange(w, requested)))
  {
    var run := Quot(requested, runLen);
    var class_ := Rem(run, period);
    PeriodicItem(s, period, runLen, cycle, w, requested, run, available);
    var start := PeriodicSum(s, Quot(run, period), cycle, class_, runLen, Rem(requested, runLen), available);
    r := DirectRange(start, PeriodWidth(s, class_), requested, available);
  }

  lemma PeriodicItem(s: Storage, period: nat, runLen: nat, cycle: nat, w: seq<nat>, i: nat, run: nat, available: nat)
    requires DescribesPeriodic(s, period, runLen, cycle, w) && Tiles(w, available) && i < |w| && run == Quot(i, runLen)
    ensures var total := PeriodicTotal(s, Quot(run, period), cycle, Rem(run, period), runLen, Rem(i, runLen));
            && total <= available
            && DirectRange(Some(total), PeriodWidth(s, Rem(run, period)), i, available) == Ok(Some(ItemRange(w, i)))
  {
    PeriodicStart(s, period, runLen, cycle, w, i, run);
    PeriodicWidth(s, period, runLen, cycle, w, i, run);
    StartWithin(w, i, available);
    RangeOf(w, i, available, Start(w, i), w[i]);
  }

  /** The sum behind a periodic start. Its two products that are not checked at run
      time are typed `usize` here: they stay below the input length. */
  method PeriodicSum(s: Storage, cycles: nat, cycle: nat, class_: nat, runLen: nat, tail: nat, available: usize)
    returns (start: Option<nat>)
    requires class_ < PERIOD_CAPACITY && runLen >= 1
    requires PeriodicTotal(s, cycles, cycle, class_, runLen, tail) <= available
    ensures start == Some(PeriodicTotal(s, cycles, cycle, class_, runLen, tail))
  {
    Mono(0, 0, cycles * cycle, runLen);
    Mono(0, 0, PeriodCycle(s, class_), runLen);
    Mono(0, 0, tail, PeriodWidth(s, class_));
    ProductFits(cycles, cycle, runLen);
    var sum := PeriodPrefix(s, class_, runLen, available);
    match sum {
      case None => start := None;
      case Some(prefix) =>
        var runsBefore: usize := prefix * runLen;
        var itemsBefore: usize := tail * PeriodWidth(s, class_);
        start := AddBoth(CheckedProduct(cycles, cycle, runLen), runsBefore, itemsBefore);
    }
  }

  /** `start.checked_add(a).checked_add(b)`. */
  function AddBoth(start: Option<nat>, a: nat, b: nat): Option<nat> {
    if start.Some? && start.value + a <= USIZE_MAX && start.value + a + b <= USIZE_MAX
    then Some(start.value + a + b) else None
  }

  /** Adds whole runs from the stored start of the run's block, then the tail. */
  method PackedSpan(s: Storage, runLen: nat, requested: usize, available: usize, ghost w: seq<nat>)
    returns (r: Lookup)
    requires DescribesPacked(s, runLen, w) && Tiles(w, available) && requested < |w|
    ensures r == Ok(Some(ItemRange(w, requested)))
  {
    var run := Quot(requested, runLen);
    var tail := Rem(requested, runLen);
    PackedItem(s, runLen, w, requested, run, tail, available);
    var start := PackedRunStart(s, runLen, run, requested, available, w);
    match start {
      case None => return Err(InvalidExtent(requested, USIZE_MAX, available));
      case Some(runStart) =>
        var width := CodeWidth(s, PACKED_CODES, run);
        var offset := Times(tail, width);
        if offset > USIZE_MAX || runStart + offset > USIZE_MAX {
          return Err(InvalidExtent(requested, USIZE_MAX, available));
        }
        r := DirectRange(Some(runStart + offset), width, requested, available);
    }
  }

  /** Item `i` is item `tail` of packed run `run`. */
  lemma PackedItem(s: Storage, runLen: nat, w: seq<nat>, i: nat, run: nat, tail: nat, available: nat)
    requires DescribesPacked(s, runLen, w) && Tiles(w, available) && i < |w|
    requires run == Quot(i, runLen) && tail == Rem(i, runLen)
    ensures run < PACKED_RUN_CAPACITY && Times(run, runLen) <= i
    ensures var start := Start(w, Times(run, runLen)) + Times(tail, CodeWidth(s, PACKED_CODES, run));
            && start <= available
            && DirectRange(Some(start), CodeWidth(s, PACKED_CODES, run), i, available) == Ok(Some(ItemRange(w, i)))
  {
    assert i == run * runLen + tail by { DivMod(i, runLen); }
    assert PackedDescribes(s, runLen, w, i);
    PackedRun(s, runLen, w, run, i);
    StartWithin(w, i, available);
    RangeOf(w, i, available, Start(w, i), w[i]);
  }

  /** Start of packed run `run`, walked from its block. */
  method PackedRunStart(s: Storage, runLen: nat, run: nat, requested: usize, available: usize, ghost w: seq<nat>)
    returns (r: Option<nat>)
    requires DescribesPacked(s, runLen, w) && Tiles(w, available) && requested < |w|
    requires run < PACKED_RUN_CAPACITY && Times(run, runLen) <= requested
    ensures r == Some(Start(w, Times(run, runLen)))
  {
    var block := run / PACKED_RUN_BLOCK;
    var firstRun := block * PACKED_RUN_BLOCK;
    Mono(firstRun, runLen, run, runLen);
    assert BlockDescribes(s, w, block, BlockItem(block, runLen));
    var start := BlockStart(s, block);
    var ordinal := firstRun;
    while ordinal < run
      invariant firstRun <= ordinal <= run
      invariant ordinal * runLen <= |w| && start == Start(w, ordinal * runLen)
    {
      var width := CodeWidth(s, PACKED_CODES, ordinal);
      PackedRunEnd(s, runLen, w, ordinal, run, requested, available);
      if width * runLen > USIZE_MAX || start + width * runLen > USIZE_MAX {
        return None;
      }
      start := start + width * runLen;
      ordinal := ordinal + 1;
    }
    r := Some(start);
  }

  /** A whole packed run before the item. */
  lemma PackedRunEnd(s: Storage, runLen: nat, w: seq<nat>, ordinal: nat, run: nat, requested: nat, available: nat)
    requires DescribesPacked(s, runLen, w) && Tiles(w, available) && requested < |w|
    requires ordinal < run < PACKED_RUN_CAPACITY && run * runLen <= requested
    ensures ordinal * runLen <= (ordinal + 1) * runLen <= requested
    ensures Start(w, (ordinal + 1) * runLen) ==
              Start(w, ordinal * runLen) + CodeWidth(s, PACKED_CODES, ordinal) * runLen
    ensures Start(w, (ordinal + 1) * runLen) <= available
  {
    Distribute(ordinal, 1, runLen);
    Mono(ordinal + 1, runLen, run, runLen);
    PackedRun(s, runLen, w, ordinal, (ordinal + 1) * runLen);
    StartWithin(w, (ordinal + 1) * runLen, available);
    Commute(CodeWidth(s, PACKED_CODES, ordinal), runLen);
  }
}
