/** The second walks that fill a summary once the first walk has suggested its encoding.
    Framing is deterministic, so they see the measures the first walk saw. */
module GeometryPasses {
  import opened Arith
  import opened Base
  import opened Widths
  import opened GeometryStorage
  import opened GeometryLookup
  import opened GeometryRuns
  import opened GeometryRanked
  import opened GeometryFactor
  import opened GeometryShape
  import opened RecursiveSignature

  // ----- interval events -----

  /** The segments of the first `n` items, one for each maximal run. */
  ghost predicate IntervalsKept(s: Storage, segments: nat, w: seq<nat>, n: nat)
    requires n <= |w|
  {
    && segments == RunCount(w[..n]) && segments <= INTERVAL_CAPACITY
    && (n > 0 ==> DescribesInterval(s, segments, w[..n]))
  }

  lemma SameSegment(s: Storage, segments: nat, w: seq<nat>, n: nat)
    requires 0 < n < |w| && IntervalsKept(s, segments, w, n) && w[n] == w[n - 1]
    ensures IntervalsKept(s, segments, w, n + 1)
  {
    hide GetU32, Start;
    var v, u := w[..n], w[..n + 1];
    RunCountStep(w, n);
    assert v <= u;
    forall k: nat | k < segments ensures SegmentDescribes(s, segments, u, k) {
      assert SegmentDescribes(s, segments, v, k);
      StartPrefix(v, u, SegmentItem(s, k));
      if k + 1 == segments {
        assert v[n - 1] == SegmentWidth(s, k);
      }
    }
  }

  lemma NewSegment(before: Storage, after: Storage, segments: nat, w: seq<nat>, n: nat)
    requires n < |w| && IntervalsKept(before, segments, w, n) && segments < INTERVAL_CAPACITY
    requires n > 0 ==> w[n] != w[n - 1]
    requires Untouched(before, after, segments * 12, segments * 12 + 12)
    requires SegmentItem(after, segments) == n && SegmentByte(after, segments) == Start(w, n) && SegmentWidth(after, segments) == w[n]
    ensures IntervalsKept(after, segments + 1, w, n + 1)
  {
    hide GetU32, Start;
    var v, u := w[..n], w[..n + 1];
    RunCountStep(w, n);
    assert v <= u && u <= w;
    StartPrefix(u, w, n);
    forall k: nat | k < segments
      ensures SegmentItem(after, k) == SegmentItem(before, k)
      ensures SegmentByte(after, k) == SegmentByte(before, k) && SegmentWidth(after, k) == SegmentWidth(before, k)
    {
      U32Kept(before, after, segments * 12, segments * 12 + 12, k * 12);
      U32Kept(before, after, segments * 12, segments * 12 + 12, k * 12 + 4);
      U32Kept(before, after, segments * 12, segments * 12 + 12, k * 12 + 8);
    }
    if n == 0 {
      assert w[..0] == [];
    }
    var more := segments + 1;
    forall k: nat | k < more ensures SegmentDescribes(after, more, u, k) {
      if k < segments {
        assert SegmentDescribes(before, segments, v, k);
        StartPrefix(v, u, SegmentItem(before, k));
      }
    }
  }

  method PutSegment(storage: array<byte>, segment: nat, item: nat, start: nat, width: nat)
    requires storage.Length == STORAGE_BYTES && segment < INTERVAL_CAPACITY
    requires item <= U32_MAX && start <= U32_MAX && width <= U32_MAX
    modifies storage
    ensures SegmentItem(storage[..], segment) == item && SegmentByte(storage[..], segment) == start
    ensures SegmentWidth(storage[..], segment) == width
    ensures Untouched(old(storage[..]), storage[..], segment * 12, segment * 12 + 12)
  {
    hide GetU32;
    var base := segment * 12;
    PutU32(storage, base, item);
    ghost var first: Storage := storage[..];
    PutU32(storage, base + 4, start);
    ghost var second: Storage := storage[..];
    PutU32(storage, base + 8, width);
    U32Kept(first, second, base + 4, base + 8, base);
    U32Kept(second, storage[..], base + 8, base + 12, base);
    U32Kept(second, storage[..], base + 8, base + 12, base + 4);
  }

  /** One segment for each run, while they fit. */
  method BuildIntervals(storage: array<byte>, w: seq<nat>) returns (built: Option<nat>)
    requires storage.Length == STORAGE_BYTES && 0 < |w| <= U32_MAX
    modifies storage
    ensures built.Some? ==> DescribesInterval(storage[..], built.value, w) && built.value <= U32_MAX
    ensures RunCount(w) <= INTERVAL_CAPACITY && Start(w, |w|) <= U32_MAX ==> built.Some?
  {
    hide GetU32, Start, RunCount, SegmentItem, SegmentByte, SegmentWidth, DescribesInterval;
    var previous: Option<nat> := None;
    var segments := 0;
    var cursor := 0;
    NoSegments(storage[..], w);
    for index := 0 to |w|
      invariant cursor == Start(w, index) && IntervalsKept(storage[..], segments, w, index)
      invariant previous == if index == 0 then None else Some(w[index - 1])
    {
      RunCountStep(w, index);
      RunCountGrows(w, index + 1, |w|);
      StartMonotone(w, index + 1, |w|);
      StartNext(w, index);
      if previous != Some(w[index]) {
        if segments == INTERVAL_CAPACITY || index > U32_MAX || cursor > U32_MAX || w[index] > U32_MAX {
          return None;
        }
        ghost var before: Storage := storage[..];
        PutSegment(storage, segments, index, cursor, w[index]);
        NewSegment(before, storage[..], segments, w, index);
        previous := Some(w[index]);
        segments := segments + 1;
      } else {
        SameSegment(storage[..], segments, w, index);
      }
      cursor := cursor + w[index];
    }
    assert w[..|w|] == w;
    built := Some(segments);
  }

  lemma NoSegments(s: Storage, w: seq<nat>)
    ensures IntervalsKept(s, 0, w, 0) && Start(w, 0) == 0
  {
    assert w[..0] == [];
  }

  lemma {:induction false} RunCountGrows(w: seq<nat>, i: nat, n: nat)
    requires i <= n <= |w|
    ensures RunCount(w[..i]) <= RunCount(w[..n]) && (n == |w| ==> RunCount(w[..n]) == RunCount(w))
    decreases n
  {
    assert n == |w| ==> w[..n] == w;
    if i < n {
      RunCountStep(w, n - 1);
      RunCountGrows(w, i, n - 1);
    }
  }

  // ----- four-axis components -----

  method BuildFactorized(storage: array<byte>, w: seq<nat>) returns (built: Option<nat>)
    requires storage.Length == STORAGE_BYTES && storage[..] == Zeros(STORAGE_BYTES) && forall i :: 0 <= i < |w| ==> w[i] <= U32_MAX
    modifies storage
    ensures built.Some? <==> FactorFits(w, |w|) && FactorHigh(w, |w|)
    ensures built.Some? ==> DescribesFactorized(storage[..], built.value, w) && built.value <= U32_MAX
  {
    hide FactorKept, FactorFits, FactorExact, FactorHigh;
    var f := Factor(true, true, false, 0);
    NothingPredicted(storage[..], 0, w);
    NothingExact(storage[..], f, w);
    for index := 0 to |w|
      invariant f.valid ==> FactorKept(storage[..], f.base, w, index)
      invariant f.base <= U32_MAX && FactorExact(storage[..], f, w, index)
    {
      if f.valid {
        f := PushFactor(storage, f, index, w[index], w);
      } else {
        StaysRefused(storage[..], f, w, index);
      }
    }
    ExactEnds(storage[..], f, w);
    if !f.valid || !f.high {
      return None;
    }
    FactorizedDescribes(storage[..], f.base, w);
    built := Some(f.base);
  }

  // ----- recursive shapes -----

  /** The classes of the first `n` items: their signatures and widths, and for every
      period still possible, the first 64 repeated. */
  ghost predicate ClassesKept(s: Storage, classes: nat, codes: seq<nat>, m: seq<Measure>, n: nat) {
    && n <= |m| && |codes| == n && classes == Signatures(m, n) <= PALETTE_CAPACITY
    && (forall c: nat :: c < classes ==> c in codes)
    && (forall i: nat :: i < n ==> CodeTells(s, classes, codes, m, i))
    && (forall c: nat, d: nat :: c < d < classes ==> Distinct(s, c, d))
  }

  ghost predicate CodeTells(s: Storage, classes: nat, codes: seq<nat>, m: seq<Measure>, i: nat)
    requires i < |codes| && i < |m|
  {
    && codes[i] < classes <= PALETTE_CAPACITY
    && ClassHash(s, codes[i]) == Signature(m[i]) && ClassWidth(s, codes[i]) == m[i].consumed < U16_LIMIT
  }

  // What a repeating shape needs of the measures.

  ghost predicate SignatureRepeats(m: seq<Measure>, p: nat, i: nat)
    requires p > 0 && i < |m|
  {
    Signature(m[i]) == Signature(m[i % p])
  }

  ghost predicate ShapeRepeats(m: seq<Measure>, p: nat)
    requires p > 0
  {
    forall i: nat :: i < |m| ==> SignatureRepeats(m, p, i)
  }

  /** Few signatures, each of one 16-bit width, that repeat with a short period. */
  ghost predicate ShapeFits(m: seq<Measure>) {
    && (forall i :: 0 <= i < |m| ==> m[i].consumed < U16_LIMIT)
    && SignaturesTell(m) && Signatures(m, |m|) <= PALETTE_CAPACITY
    && exists p: nat :: 1 <= p <= |m| && p <= PERIOD_CAPACITY && ShapeRepeats(m, p)
  }

  lemma {:induction false} SignaturesGrow(m: seq<Measure>, n: nat, k: nat)
    requires n <= k <= |m|
    ensures Signatures(m, n) <= Signatures(m, k)
    decreases k
  {
    if n < k {
      SignaturesGrow(m, n, k - 1);
    }
  }

  /** The classes are those of the signatures seen. */
  lemma ClassesTellSeen(s: Storage, classes: nat, codes: seq<nat>, m: seq<Measure>, n: nat, c: Option<nat>)
    requires ClassesKept(s, classes, codes, m, n) && n < |m| && m[n].consumed < U16_LIMIT
    requires c.Some? ==> c.value < classes && ClassHash(s, c.value) == Signature(m[n])
    requires c.None? ==> forall d: nat :: d < classes ==> ClassHash(s, d) != Signature(m[n])
    ensures Signatures(m, n + 1) == if c.Some? then classes else classes + 1
    ensures c.Some? && ClassWidth(s, c.value) != m[n].consumed ==> !SignaturesTell(m)
    ensures c.None? && classes >= PALETTE_CAPACITY ==> !ShapeFits(m)
  {
    SignaturesNext(m, n);
    SignaturesGrow(m, n + 1, |m|);
    hide ClassHash, ClassWidth, Signature, Signatures;
    if c.Some? {
      assert c.value in codes;
      var i :| 0 <= i < n && codes[i] == c.value;
      assert CodeTells(s, classes, codes, m, i);
    } else {
      forall j | 0 <= j < n ensures Signature(m[j]) != Signature(m[n]) {
        assert CodeTells(s, classes, codes, m, j);
      }
    }
  }

  /** Codes are equal exactly when signatures are. */
  lemma ClassesTellCodes(s: Storage, classes: nat, codes: seq<nat>, m: seq<Measure>, n: nat, i: nat, j: nat)
    requires ClassesKept(s, classes, codes, m, n) && i < n && j < n
    ensures codes[i] == codes[j] <==> Signature(m[i]) == Signature(m[j])
  {
    hide ClassHash, ClassWidth, Signature, Signatures;
    assert CodeTells(s, classes, codes, m, i) && CodeTells(s, classes, codes, m, j);
    assert codes[i] < codes[j] ==> Distinct(s, codes[i], codes[j]);
    assert codes[j] < codes[i] ==> Distinct(s, codes[j], codes[i]);
  }

  /** A period the codes contradict is none of the signatures. */
  lemma PeriodContradicted(s: Storage, classes: nat, codes: seq<nat>, m: seq<Measure>, n: nat, observed: seq<nat>, p: nat)
    requires ClassesKept(s, classes, codes, m, n) && Observed(observed, codes) && 1 <= p <= PERIOD_CAPACITY
    ensures (forall i: nat :: i < n ==> SignatureRepeats(m, p, i)) <==> Periodic(observed, codes, p - 1)
  {
    hide ClassesKept, SignatureRepeats, CodeRepeated;
    ClassesSized(s, classes, codes, m, n);
    var q: nat := p - 1;
    forall i: nat | i < n ensures SignatureRepeats(m, p, i) <==> CodeRepeated(observed, codes, q, i) {
      OneContradicted(s, classes, codes, m, n, observed, p, i);
    }
  }

  lemma OneContradicted(s: Storage, classes: nat, codes: seq<nat>, m: seq<Measure>, n: nat, observed: seq<nat>, p: nat, i: nat)
    requires ClassesKept(s, classes, codes, m, n) && Observed(observed, codes) && 1 <= p <= PERIOD_CAPACITY && i < n
    ensures |codes| == n <= |m| && (SignatureRepeats(m, p, i) <==> CodeRepeated(observed, codes, p - 1, i))
  {
    ClassesSized(s, classes, codes, m, n);
    RemainderBelow(i, p);
    ClassesTellCodes(s, classes, codes, m, n, i, i % p);
    hide ClassesKept, Signature;
  }

  lemma RemainderBelow(i: nat, p: nat)
    requires p > 0
    ensures i % p < p && i % p <= i && (i < p ==> i % p == i)
  {
    if i < p {
      ModSmall(i, p);
    }
  }

  ghost predicate Observed(observed: seq<nat>, codes: seq<nat>) {
    |observed| == PERIOD_CAPACITY && forall k :: 0 <= k < |codes| && k < PERIOD_CAPACITY ==> observed[k] == codes[k]
  }

  /** The code at `k` repeats with period `p + 1`. */
  ghost predicate CodeRepeated(observed: seq<nat>, codes: seq<nat>, p: nat, k: nat)
    requires |observed| == PERIOD_CAPACITY && p < PERIOD_CAPACITY && k < |codes|
  {
    k > p ==> codes[k] == observed[k % (p + 1)]
  }

  /** Period `p + 1` is still possible. */
  ghost predicate Periodic(observed: seq<nat>, codes: seq<nat>, p: nat)
    requires |observed| == PERIOD_CAPACITY && p < PERIOD_CAPACITY
  {
    forall k: nat :: k < |codes| ==> CodeRepeated(observed, codes, p, k)
  }

  ghost predicate Possible(candidates: seq<bool>, observed: seq<nat>, codes: seq<nat>) {
    && |candidates| == |observed| == PERIOD_CAPACITY
    && forall p: nat :: p < PERIOD_CAPACITY ==> (candidates[p] <==> Periodic(observed, codes, p))
  }

  lemma CodeAppended(s: Storage, classes: nat, codes: seq<nat>, m: seq<Measure>, n: nat, code: nat)
    requires n < |m| && |codes| == n && code < classes == Signatures(m, n + 1) <= PALETTE_CAPACITY
    requires forall i: nat :: i < n ==> CodeTells(s, classes, codes, m, i)
    requires forall c: nat, d: nat :: c < d < classes ==> Distinct(s, c, d)
    requires forall c: nat :: c < classes ==> c in codes || c == code
    requires ClassHash(s, code) == Signature(m[n]) && ClassWidth(s, code) == m[n].consumed < U16_LIMIT
    ensures ClassesKept(s, classes, codes + [code], m, n + 1)
  {
    hide ClassHash, ClassWidth, Signature, Signatures;
    var more := codes + [code];
    forall i: nat | i < n + 1 ensures CodeTells(s, classes, more, m, i) {
      assert i < n ==> CodeTells(s, classes, codes, m, i);
    }
  }

  lemma ClassesGrow(before: Storage, after: Storage, classes: nat, more: nat, codes: seq<nat>, m: seq<Measure>, n: nat)
    requires more == classes + 1
    requires ClassesKept(before, classes, codes, m, n) && classes < PALETTE_CAPACITY
    requires forall c: nat :: c < PALETTE_CAPACITY && c != classes ==> SameClass(before, after, c)
    requires forall c: nat :: c < classes ==> ClassHash(before, c) != ClassHash(after, classes)
    ensures forall i: nat :: i < n ==> CodeTells(after, more, codes, m, i)
    ensures forall c: nat, d: nat :: c < d < more ==> Distinct(after, c, d)
  {
    hide ClassHash, ClassWidth, Signature, Signatures;
    forall i: nat | i < n ensures CodeTells(after, more, codes, m, i) {
      assert CodeTells(before, classes, codes, m, i) && SameClass(before, after, codes[i]);
    }
    forall c: nat, d: nat | c < d < more ensures Distinct(after, c, d) {
      assert SameClass(before, after, c);
      assert d < classes ==> SameClass(before, after, d) && Distinct(before, c, d);
    }
  }

  /** Items of one signature have one width. */
  lemma ClassesTell(s: Storage, classes: nat, codes: seq<nat>, m: seq<Measure>)
    requires ClassesKept(s, classes, codes, m, |m|)
    ensures SignaturesTell(m)
  {
    hide ClassHash, ClassWidth, Signature;
    forall i, j | 0 <= i < |m| && 0 <= j < |m| && Signature(m[i]) == Signature(m[j]) ensures m[i].consumed == m[j].consumed {
      assert CodeTells(s, classes, codes, m, i) && CodeTells(s, classes, codes, m, j);
      assert codes[i] < codes[j] ==> Distinct(s, codes[i], codes[j]);
      assert codes[j] < codes[i] ==> Distinct(s, codes[j], codes[i]);
    }
  }

  /** Finds or adds the class of an item; none when the palette is full or the width
      contradicts the class. */
  method ClassOf(storage: array<byte>, classes: nat, index: nat, width: nat, hash: nat, ghost codes: seq<nat>, ghost m: seq<Measure>)
    returns (class_: Option<nat>, more: nat)
    requires storage.Length == STORAGE_BYTES && ClassesKept(storage[..], classes, codes, m, index) && index < |m|
    requires m[index].consumed == width < U16_LIMIT && hash == Signature(m[index]) && hash < U16_LIMIT && classes <= PALETTE_CAPACITY
    modifies storage
    ensures class_.Some? ==> class_.value < more && ClassesKept(storage[..], more, codes + [class_.value], m, index + 1)
    ensures class_.None? ==> !ShapeFits(m)
  {
    hide ClassHash, ClassWidth, Signature, Signatures, SignaturesTell, ShapeRepeats;
    more := classes;
    ghost var first: Storage := storage[..];
    var found := FindClass(storage, classes, hash);
    assert storage[..] == first;
    ClassesTellSeen(first, classes, codes, m, index, found);
    match found {
      case Some(c) =>
        if ClassWidth(storage[..], c) != width {
          return None, more;
        }
        CodeAppended(storage[..], classes, codes, m, index, c);
        class_ := Some(c);
      case None =>
        if classes >= PALETTE_CAPACITY {
          return None, more;
        }
        ghost var before: Storage := storage[..];
        AddClass(storage, classes, hash, width);
        more := classes + 1;
        ClassesGrow(before, storage[..], classes, more, codes, m, index);
        CodeAppended(storage[..], more, codes, m, index, classes);
        class_ := Some(classes);
    }
  }

  /** Drops the periods that code `index` contradicts. */
  function StillPossible(candidates: seq<bool>, observed: seq<nat>, index: nat, code: nat): (s: seq<bool>)
    requires |candidates| == |observed| == PERIOD_CAPACITY
    ensures |s| == PERIOD_CAPACITY
  {
    seq(PERIOD_CAPACITY, p requires 0 <= p < PERIOD_CAPACITY =>
      candidates[p] && (index <= p || code == observed[index % (p + 1)]))
  }

  lemma PossibleNext(candidates: seq<bool>, observed: seq<nat>, next: seq<nat>, codes: seq<nat>, code: nat)
    requires Possible(candidates, observed, codes) && |next| == PERIOD_CAPACITY
    requires next == if |codes| < PERIOD_CAPACITY then observed[|codes| := code] else observed
    ensures Possible(StillPossible(candidates, next, |codes|, code), next, codes + [code])
  {
    hide Periodic;
    var after := StillPossible(candidates, next, |codes|, code);
    forall p: nat | p < PERIOD_CAPACITY ensures after[p] <==> Periodic(next, codes + [code], p) {
      PeriodicNext(observed, next, codes, code, p);
    }
  }

  lemma PeriodicNext(observed: seq<nat>, next: seq<nat>, codes: seq<nat>, code: nat, p: nat)
    requires |observed| == |next| == PERIOD_CAPACITY && p < PERIOD_CAPACITY
    requires next == if |codes| < PERIOD_CAPACITY then observed[|codes| := code] else observed
    ensures Periodic(next, codes + [code], p) <==>
              Periodic(observed, codes, p) && (|codes| <= p || code == next[|codes| % (p + 1)])
  {
    var more, n := codes + [code], |codes|;
    forall k: nat | k < n ensures CodeRepeated(next, more, p, k) <==> CodeRepeated(observed, codes, p, k) {
      RemainderBelow(k, p + 1);
    }
    assert CodeRepeated(next, more, p, n) <==> (n <= p || code == next[n % (p + 1)]);
    if Periodic(next, more, p) {
      forall k: nat | k < n ensures CodeRepeated(observed, codes, p, k) {
        assert CodeRepeated(next, more, p, k);
      }
    }
    if Periodic(observed, codes, p) && CodeRepeated(next, more, p, n) {
      forall k: nat | k < |more| ensures CodeRepeated(next, more, p, k) {
        assert k < n ==> CodeRepeated(observed, codes, p, k);
      }
    }
  }

  /** Smallest possible period that does not exceed the count. */
  function FirstPeriod(candidates: seq<bool>, limit: nat, p: nat): (r: Option<nat>)
    requires |candidates| == PERIOD_CAPACITY && p <= limit <= PERIOD_CAPACITY
    ensures r.Some? ==> 1 <= r.value <= limit && candidates[r.value - 1]
    ensures r.None? ==> forall q :: p <= q < limit ==> !candidates[q]
    decreases limit - p
  {
    if p == limit then None else if candidates[p] then Some(p + 1) else FirstPeriod(candidates, limit, p + 1)
  }

  /** The codes of one period are stored after the classes. */
  ghost predicate CodesPlaced(s: Storage, observed: seq<nat>, n: nat) {
    n <= PERIOD_CAPACITY && |observed| == PERIOD_CAPACITY && forall k: nat :: k < n ==> ShapeCode(s, k) == observed[k]
  }

  lemma ShapeFromCodes(before: Storage, s: Storage, classes: nat, codes: seq<nat>, m: seq<Measure>, observed: seq<nat>,
                       candidates: seq<bool>, period: nat)
    requires ClassesKept(before, classes, codes, m, |m|) && Observed(observed, codes) && Possible(candidates, observed, codes)
    requires 1 <= period <= PERIOD_CAPACITY && period <= |m| && candidates[period - 1] && CodesPlaced(s, observed, period)
    requires forall i :: 0 <= i < SHAPE_CODES ==> s[i] == before[i]
    ensures ShapeTable(s, period) && forall i: nat :: i < |m| ==> ShapeDescribes(s, period, WidthsOf(m), i)
  {
    hide ClassHash, ClassWidth, Signature;
    forall k: nat | k < period ensures ShapeCode(s, k) < PALETTE_CAPACITY {
      assert CodeTells(before, classes, codes, m, k);
    }
    forall i: nat | i < |m| ensures ShapeDescribes(s, period, WidthsOf(m), i) {
      assert Periodic(observed, codes, period - 1) && CodeRepeated(observed, codes, period - 1, i);
      assert i % period < period;
      if i < period {
        ModSmall(i, period);
      }
      assert codes[i] == observed[i % period] == ShapeCode(s, i % period);
      assert CodeTells(before, classes, codes, m, i);
      CodesApart(before, s, codes[i]);
      WidthOfCode(s, i % period);
    }
  }

  lemma WidthOfCode(s: Storage, k: nat)
    requires k < PERIOD_CAPACITY && ShapeCode(s, k) < PALETTE_CAPACITY
    ensures ShapeWidth(s, k) == ClassWidth(s, ShapeCode(s, k))
  {
  }

  /** Period, cycle width and class count of a repeating shape. */
  datatype ShapeSummary = ShapeSummary(period: nat, cycle: nat, classes: nat)

  /** Sums the class widths of one period; the sum of 64 widths below 2^16 cannot
      overflow 32 bits. */
  method CycleOf(storage: array<byte>, period: nat) returns (cycle: nat)
    requires storage.Length == STORAGE_BYTES && ShapeTable(storage[..], period)
    ensures cycle == ShapeCycle(storage[..], period) <= U32_MAX
  {
    hide ShapeWidth;
    cycle := 0;
    for index := 0 to period
      invariant cycle == ShapeCycle(storage[..], index) <= index * U16_LIMIT
    {
      ShapeWidthFits(storage[..], index);
      cycle := cycle + ShapeWidth(storage[..], index);
    }
  }

  lemma ShapeWidthFits(s: Storage, k: nat)
    requires k < PERIOD_CAPACITY && ShapeCode(s, k) < PALETTE_CAPACITY
    ensures ShapeWidth(s, k) < U16_LIMIT
  {
  }

  method BuildRecursiveShape(storage: array<byte>, m: seq<Measure>) returns (built: Option<ShapeSummary>)
    requires storage.Length == STORAGE_BYTES && 0 < |m| <= U32_MAX
    modifies storage
    ensures built.Some? <==> ShapeFits(m)
    ensures built.Some? ==>
              && DescribesShape(storage[..], built.value.period, built.value.cycle, WidthsOf(m))
              && built.value.period <= U32_MAX && built.value.cycle <= U32_MAX && built.value.classes <= U32_MAX
  {
    hide ClassHash, ClassWidth, ClassesKept, Signature, ShapeWidth, Possible, Periodic, ShapeFits;
    var classes: nat := 0;
    var candidates := seq(PERIOD_CAPACITY, _ => true);
    var observed: seq<nat> := seq(PERIOD_CAPACITY, _ => 0);
    ghost var codes: seq<nat> := [];
    NoClasses(storage[..], candidates, observed, m);
    for index := 0 to |m|
      invariant classes <= PALETTE_CAPACITY && ClassesKept(storage[..], classes, codes, m, index) && |codes| == index
      invariant Observed(observed, codes) && Possible(candidates, observed, codes) && |candidates| == PERIOD_CAPACITY
    {
      var width := m[index].consumed;
      if width >= U16_LIMIT {
        TooWide(m, index);
        return None;
      }
      SignatureIs(m[index]);
      var class_, more := ClassOf(storage, classes, index, width, m[index].shape % U16_LIMIT, codes, m);
      if class_.None? {
        return None;
      }
      var code := class_.value;
      ClassesSized(storage[..], more, codes + [code], m, index + 1);
      var next: seq<nat> := if index < PERIOD_CAPACITY then observed[index := code] else observed;
      PossibleNext(candidates, observed, next, codes, code);
      candidates := StillPossible(candidates, next, index, code);
      observed, classes := next, more;
      codes := codes + [code];
      if !(exists p :: 0 <= p < |candidates| && candidates[p]) {
        NoPeriodLeft(storage[..], classes, codes, m, index + 1, observed, candidates, PERIOD_CAPACITY);
        return None;
      }
    }
    var period := FirstPeriod(candidates, Min(|m|, PERIOD_CAPACITY), 0);
    if period.None? {
      NoPeriodLeft(storage[..], classes, codes, m, |m|, observed, candidates, Min(|m|, PERIOD_CAPACITY));
      return None;
    }
    FitsFromCodes(storage[..], classes, codes, m, observed, candidates, period.value);
    ghost var before: Storage := storage[..];
    for index := 0 to period.value
      invariant CodesPlaced(storage[..], observed, index)
      invariant forall i :: 0 <= i < SHAPE_CODES ==> storage[i] == before[i]
    {
      CodeIsByte(before, classes, codes, m, index);
      storage[SHAPE_CODES + index] := observed[index];
    }
    ShapeFromCodes(before, storage[..], classes, codes, m, observed, candidates, period.value);
    var cycle := CycleOf(storage, period.value);
    built := Some(ShapeSummary(period.value, cycle, classes));
  }

  lemma TooWide(m: seq<Measure>, i: nat)
    requires i < |m| && m[i].consumed >= U16_LIMIT
    ensures !ShapeFits(m)
  {
  }

  /** Every period up to `limit` is contradicted by the first `n` items. */
  lemma NoPeriodLeft(s: Storage, classes: nat, codes: seq<nat>, m: seq<Measure>, n: nat, observed: seq<nat>, candidates: seq<bool>, limit: nat)
    requires ClassesKept(s, classes, codes, m, n) && Observed(observed, codes) && Possible(candidates, observed, codes)
    requires limit <= PERIOD_CAPACITY && forall p :: 0 <= p < limit ==> !candidates[p]
    requires limit == PERIOD_CAPACITY || limit == |m|
    ensures !ShapeFits(m)
  {
    hide Signature, Periodic, Signatures, SignaturesTell, Observed;
    forall p: nat | 1 <= p <= |m| && p <= PERIOD_CAPACITY ensures !ShapeRepeats(m, p) {
      var q: nat := p - 1;
      assert !candidates[q];
      PeriodContradicted(s, classes, codes, m, n, observed, p);
    }
  }

  lemma FitsFromCodes(s: Storage, classes: nat, codes: seq<nat>, m: seq<Measure>, observed: seq<nat>, candidates: seq<bool>, period: nat)
    requires ClassesKept(s, classes, codes, m, |m|) && Observed(observed, codes) && Possible(candidates, observed, codes)
    requires 1 <= period <= |m| && period <= PERIOD_CAPACITY && candidates[period - 1]
    ensures ShapeFits(m)
  {
    hide Signature, Periodic, Signatures, Observed, ClassHash, ClassWidth;
    ClassesTell(s, classes, codes, m);
    var q: nat := period - 1;
    assert candidates[q];
    PeriodContradicted(s, classes, codes, m, |m|, observed, period);
    assert ShapeRepeats(m, period);
    forall i | 0 <= i < |m| ensures m[i].consumed < U16_LIMIT {
      assert CodeTells(s, classes, codes, m, i);
    }
  }

  lemma SignatureIs(m: Measure)
    ensures m.shape % U16_LIMIT == Signature(m)
  {
  }

  lemma NoClasses(s: Storage, candidates: seq<bool>, observed: seq<nat>, m: seq<Measure>)
    requires |candidates| == |observed| == PERIOD_CAPACITY && forall p :: 0 <= p < PERIOD_CAPACITY ==> candidates[p]
    ensures ClassesKept(s, 0, [], m, 0) && Possible(candidates, observed, [])
  {
  }

  lemma ClassesSized(s: Storage, classes: nat, codes: seq<nat>, m: seq<Measure>, n: nat)
    requires ClassesKept(s, classes, codes, m, n)
    ensures classes == Signatures(m, n) <= PALETTE_CAPACITY && |codes| == n <= |m|
  {
  }

  lemma CodeIsByte(s: Storage, classes: nat, codes: seq<nat>, m: seq<Measure>, k: nat)
    requires ClassesKept(s, classes, codes, m, |m|) && k < |m|
    ensures |codes| == |m| && codes[k] < 256
  {
    assert CodeTells(s, classes, codes, m, k);
  }

  // ----- packed runs -----

  /** One more element that is not coded yet. */
  lemma RankedMore(s: Storage, palette: seq<nat>, ended: seq<nat>, starts: seq<nat>, width: nat, start: nat)
    requires RankedKept(s, palette, ended, starts, PACKED_RUN_BLOCK, |ended|) && |ended| < PACKED_RUN_CAPACITY
    ensures RankedKept(s, palette, ended + [width], starts + [start], PACKED_RUN_BLOCK, |ended|)
  {
    hide GetU16, GetU32, GetCode;
    forall i: nat | i < |ended| ensures CodeStored(s, palette, ended + [width], i) {
      assert CodeStored(s, palette, ended, i);
    }
    forall b: nat | b * PACKED_RUN_BLOCK < |ended| ensures BlockStored(s, starts + [start], PACKED_RUN_BLOCK, b) {
      assert BlockStored(s, starts, PACKED_RUN_BLOCK, b);
    }
  }

  method FindWidth(storage: array<byte>, count: nat, width: nat, ghost palette: seq<nat>) returns (class_: Option<nat>)
    requires storage.Length == STORAGE_BYTES && |palette| == count <= PALETTE_CAPACITY
    requires forall c: nat :: c < count ==> PaletteStored(storage[..], palette, c)
    ensures class_.Some? ==> class_.value < count && palette[class_.value] == width
    ensures class_.None? ==> width !in palette
  {
    hide GetU16;
    for candidate := 0 to count
      invariant forall c: nat :: c < candidate ==> palette[c] != width
    {
      assert PaletteStored(storage[..], palette, candidate);
      if GetU16(storage[..], PACKED_PALETTE + candidate * 2) == width {
        return Some(candidate);
      }
    }
    class_ := None;
  }

  /** A run ends: its length must be the common one, or shorter for the last run. */
  method FinishPacked(storage: array<byte>, count: nat, runs: nat, runLen: nat, width: nat, length: nat, start: nat, final: bool,
                      ghost palette: seq<nat>, ghost ended: seq<nat>, ghost starts: seq<nat>)
    returns (kept: bool, more: nat, ghost grown: seq<nat>)
    requires storage.Length == STORAGE_BYTES && |palette| == count <= PALETTE_CAPACITY && |ended| == |starts| == runs
    requires RankedKept(storage[..], palette, ended, starts, PACKED_RUN_BLOCK, runs)
    modifies storage
    ensures kept <==>
              && length <= runLen && (!final ==> length == runLen) && runs < PACKED_RUN_CAPACITY && width < U16_LIMIT
              && (width in palette || |palette| < PALETTE_CAPACITY)
              && (runs % PACKED_RUN_BLOCK == 0 ==> start <= U32_MAX)
    ensures kept ==>
              && |grown| == more <= PALETTE_CAPACITY && grown == (if width in palette then palette else palette + [width])
              && RankedKept(storage[..], grown, ended + [width], starts + [start], PACKED_RUN_BLOCK, runs + 1)
  {
    hide GetU16, GetU32, GetCode, Untouched;
    more, grown := count, palette;
    if (!final && length != runLen) || length > runLen || runs == PACKED_RUN_CAPACITY || width >= U16_LIMIT {
      return false, more, grown;
    }
    RankedBound(storage[..], palette, ended, starts, runs);
    ghost var all, allStarts := ended + [width], starts + [start];
    RankedMore(storage[..], palette, ended, starts, width, start);
    var found := FindWidth(storage, count, width, palette);
    hide RankedKept;
    var class_: nat;
    match found {
      case Some(c) => class_ := c;
      case None =>
        if count >= PALETTE_CAPACITY {
          return false, more, grown;
        }
        class_ := count;
        ghost var before: Storage := storage[..];
        PutU16(storage, PACKED_PALETTE + class_ * 2, width);
        grown := palette + [width];
        PaletteKept(before, storage[..], palette, grown, class_, all, allStarts, PACKED_RUN_BLOCK, runs);
        more := count + 1;
    }
    kept := PushCode(storage, class_, runs, start, PACKED_RUN_BLOCK, grown, all, allStarts);
  }

  lemma RankedBound(s: Storage, palette: seq<nat>, ended: seq<nat>, starts: seq<nat>, runs: nat)
    requires RankedKept(s, palette, ended, starts, PACKED_RUN_BLOCK, runs) && runs == |ended|
    ensures runs <= PACKED_RUN_CAPACITY
  {
  }

  /** Each retained start is that of its run. */
  ghost predicate RunStarts(w: seq<nat>, starts: seq<nat>, runLen: nat) {
    forall k: nat :: k < |starts| ==> Times(k, runLen) <= |w| && starts[k] == Start(w, Times(k, runLen))
  }

  /** The runs before the current one. */
  ghost predicate RunsKept(w: seq<nat>, ended: seq<nat>, starts: seq<nat>, runLen: nat, n: nat, current: Option<nat>, length: nat, start: nat)
    requires n <= |w|
  {
    && |starts| == |ended| && RunStarts(w, starts, runLen) && length <= n
    && (current.None? <==> n == 0)
    && (current.Some? ==>
          && length > 0 && start == Start(w, n - length)
          && n - length == Times(|ended|, runLen) && Ended(w, ended, runLen, n - length)
          && forall i :: n - length <= i < n ==> w[i] == current.value)
    && (current.None? ==> ended == [])
  }

  lemma RunEnded(w: seq<nat>, ended: seq<nat>, starts: seq<nat>, runLen: nat, n: nat, width: nat, length: nat, start: nat)
    requires n <= |w| && RunsKept(w, ended, starts, runLen, n, Some(width), length, start) && length <= runLen
    ensures RunStarts(w, starts + [start], runLen) && Ended(w, ended + [width], runLen, n)
    ensures length == runLen ==> n == Times(|ended| + 1, runLen)
  {
    hide Start;
    EndedMore(w, ended, runLen, n - length, length, width);
    Distribute(|ended|, 1, runLen);
  }

  /** Coded runs of one length describe the widths. */
  lemma PackedFromRuns(s: Storage, palette: seq<nat>, w: seq<nat>, ended: seq<nat>, starts: seq<nat>, runLen: nat)
    requires RankedKept(s, palette, ended, starts, PACKED_RUN_BLOCK, |ended|) && runLen > 0
    requires Ended(w, ended, runLen, |w|) && RunStarts(w, starts, runLen)
    ensures DescribesPacked(s, runLen, w)
  {
    hide GetU16, GetU32, GetCode, Start, CodeWidth;
    forall i: nat | i < |w| ensures PackedDescribes(s, runLen, w, i) {
      assert InRun(w, ended, runLen, i);
      ElementCoded(s, palette, ended, starts, PACKED_RUN_BLOCK, |ended|, Quot(i, runLen));
    }
    forall b: nat | b < PACKED_RUN_CAPACITY / PACKED_RUN_BLOCK && BlockItem(b, runLen) < |w|
      ensures BlockDescribes(s, w, b, BlockItem(b, runLen))
    {
      var first := BlockItem(b, runLen);
      assert InRun(w, ended, runLen, first);
      DivModUnique(first, runLen, b * PACKED_RUN_BLOCK, 0);
      assert BlockStored(s, starts, PACKED_RUN_BLOCK, b);
      assert Times(b * PACKED_RUN_BLOCK, runLen) == first;
    }
  }

  // What packed runs need of the widths.

  /** Between items `i - 1` and `i` a run ends exactly at multiples of the run length. */
  predicate RunEdge(w: seq<nat>, runLen: nat, i: nat)
    requires runLen > 0 && 0 < i < |w|
  {
    w[i] != w[i - 1] <==> Rem(i, runLen) == 0
  }

  function Values(w: seq<nat>): set<nat> {
    set x | x in w
  }

  /** The start of every block of runs fits 32 bits. */
  ghost predicate BlockFits(w: seq<nat>, runLen: nat, r: nat) {
    r % PACKED_RUN_BLOCK == 0 && Times(r, runLen) < |w| ==> Start(w, Times(r, runLen)) <= U32_MAX
  }

  /** Runs of one length, but for a shorter last one, few enough and of few 16-bit widths. */
  ghost predicate PackedFits(w: seq<nat>, runLen: nat) {
    && runLen > 0 && |w| <= Times(PACKED_RUN_CAPACITY, runLen) && |Values(w)| <= PALETTE_CAPACITY
    && (forall i: nat :: 0 < i < |w| ==> RunEdge(w, runLen, i))
    && (forall i :: 0 <= i < |w| ==> w[i] < U16_LIMIT)
    && (forall r: nat :: BlockFits(w, runLen, r))
  }

  /** The runs that ended: neighbours differ, widths are narrow and in the palette. */
  ghost predicate RunsChecked(w: seq<nat>, ended: seq<nat>, starts: seq<nat>, palette: seq<nat>, last: Option<nat>) {
    && (forall c: nat, d: nat :: c < d < |palette| ==> palette[c] != palette[d])
    && (forall c: nat :: c < |palette| ==> palette[c] in w)
    && (forall k: nat :: k < |ended| ==> ended[k] in palette && ended[k] < U16_LIMIT)
    && (forall k: nat :: 0 < k < |ended| ==> ended[k] != ended[k - 1])
    && (last.Some? && ended != [] ==> last.value != ended[|ended| - 1])
    && (forall r: nat :: r < |starts| && r % PACKED_RUN_BLOCK == 0 ==> starts[r] <= U32_MAX)
  }

  /** A list without repetition inside a set is no longer than the set. */
  lemma {:induction false} FewerThan(palette: seq<nat>, all: set<nat>)
    requires forall c: nat, d: nat :: c < d < |palette| ==> palette[c] != palette[d]
    requires forall c: nat :: c < |palette| ==> palette[c] in all
    ensures |palette| <= |all|
    decreases |palette|
  {
    if palette != [] {
      FewerThan(palette[1..], all - {palette[0]});
    }
  }

  /** Values that all are in a list are no more than the list is long. */
  lemma {:induction false} AtMost(palette: seq<nat>, all: set<nat>)
    requires forall x :: x in all ==> x in palette
    ensures |all| <= |palette|
    decreases |palette|
  {
    if palette == [] {
      assert all == {};
    } else {
      var rest := all - {palette[0]};
      forall x | x in rest ensures x in palette[1..] {
        var c :| 0 <= c < |palette| && palette[c] == x;
        assert palette[1..][c - 1] == x;
      }
      AtMost(palette[1..], rest);
    }
  }

  /** A run that cannot be coded is one packed runs do not fit. */
  lemma RunRefused(w: seq<nat>, ended: seq<nat>, starts: seq<nat>, palette: seq<nat>, runLen: nat, n: nat, width: nat, length: nat, start: nat, final: bool)
    requires n <= |w| && runLen > 0 && RunsKept(w, ended, starts, runLen, n, Some(width), length, start)
    requires RunsChecked(w, ended, starts, palette, Some(width))
    requires if final then n == |w| else n < |w| && w[n] != width
    requires !(&& length <= runLen && (!final ==> length == runLen) && |ended| < PACKED_RUN_CAPACITY && width < U16_LIMIT
               && (width in palette || |palette| < PALETTE_CAPACITY)
               && (|ended| % PACKED_RUN_BLOCK == 0 ==> start <= U32_MAX))
    ensures !PackedFits(w, runLen)
  {
    hide Start, Ended, RunStarts;
    assert w[n - length] == width;
    if length > runLen {
      EdgeInside(w, |ended|, runLen, n - length, n);
    } else if !final && length != runLen {
      EdgeAfter(w, |ended|, runLen, n - length, n);
    } else if |ended| >= PACKED_RUN_CAPACITY {
      TimesGrows(PACKED_RUN_CAPACITY, |ended|, runLen);
    } else if width < U16_LIMIT && width !in palette && |palette| >= PALETTE_CAPACITY {
      FewerThan(palette + [width], Values(w));
    } else if width < U16_LIMIT {
      assert !BlockFits(w, runLen, |ended|);
    }
  }

  lemma TimesGrows(a: nat, b: nat, c: nat)
    requires a <= b
    ensures Times(a, c) <= Times(b, c)
  {
    Mono(a, c, b, c);
  }

  /** A run that goes on past its length has an edge inside. */
  lemma EdgeInside(w: seq<nat>, r: nat, runLen: nat, from: nat, n: nat)
    requires runLen > 0 && from == Times(r, runLen) && from + runLen < n <= |w| && forall i :: from <= i < n ==> w[i] == w[from]
    ensures !RunEdge(w, runLen, from + runLen)
  {
    Distribute(r, 1, runLen);
    DivModUnique(from + runLen, runLen, r + 1, 0);
  }

  /** A run that ends before its length has an edge in a wrong place. */
  lemma EdgeAfter(w: seq<nat>, r: nat, runLen: nat, from: nat, n: nat)
    requires runLen > 0 && from == Times(r, runLen) && from < n < from + runLen && n < |w| && w[n] != w[n - 1]
    ensures !RunEdge(w, runLen, n)
  {
    DivModUnique(n, runLen, r, n - from);
  }

  /** One more run ended, and another width follows. */
  lemma RunChecked(w: seq<nat>, ended: seq<nat>, starts: seq<nat>, palette: seq<nat>, grown: seq<nat>, width: nat, start: nat, next: Option<nat>)
    requires RunsChecked(w, ended, starts, palette, Some(width)) && width in w && width < U16_LIMIT && |starts| == |ended|
    requires grown == if width in palette then palette else palette + [width]
    requires next.Some? ==> next.value != width
    requires |ended| % PACKED_RUN_BLOCK == 0 ==> start <= U32_MAX
    ensures RunsChecked(w, ended + [width], starts + [start], grown, next)
  {
    var more := ended + [width];
    forall k: nat | k < |more| ensures more[k] in grown && more[k] < U16_LIMIT {
      assert k < |ended| ==> ended[k] in palette;
      assert palette <= grown;
      if width !in palette {
        assert grown[|palette|] == width;
      }
    }
  }

  /** Runs that all were coded are runs packed runs fit. */
  lemma PackedRunsFit(w: seq<nat>, ended: seq<nat>, starts: seq<nat>, palette: seq<nat>, runLen: nat)
    requires runLen > 0 && Ended(w, ended, runLen, |w|) && RunStarts(w, starts, runLen) && |starts| == |ended|
    requires RunsChecked(w, ended, starts, palette, None) && |palette| <= PALETTE_CAPACITY && |ended| <= PACKED_RUN_CAPACITY
    ensures PackedFits(w, runLen)
  {
    hide Start;
    forall i: nat | i < |w| ensures w[i] in palette && w[i] < U16_LIMIT && Quot(i, runLen) < |ended| {
      assert InRun(w, ended, runLen, i);
    }
    AtMost(palette, Values(w));
    if |w| > 0 {
      var last: nat := |w| - 1;
      assert Quot(last, runLen) < PACKED_RUN_CAPACITY;
      DivMod(last, runLen);
      Mono(Quot(last, runLen) + 1, runLen, PACKED_RUN_CAPACITY, runLen);
      Distribute(Quot(last, runLen), 1, runLen);
    }
    forall i: nat | 0 < i < |w| ensures RunEdge(w, runLen, i) {
      EdgesFromRuns(w, ended, starts, palette, runLen, i);
    }
    forall r: nat ensures BlockFits(w, runLen, r) {
      if r % PACKED_RUN_BLOCK == 0 && Times(r, runLen) < |w| {
        DivModUnique(Times(r, runLen), runLen, r, 0);
        assert Quot(Times(r, runLen), runLen) < |ended|;
      }
    }
  }

  lemma EdgesFromRuns(w: seq<nat>, ended: seq<nat>, starts: seq<nat>, palette: seq<nat>, runLen: nat, i: nat)
    requires runLen > 0 && Ended(w, ended, runLen, |w|) && RunsChecked(w, ended, starts, palette, None) && 0 < i < |w|
    ensures RunEdge(w, runLen, i)
  {
    var before: nat := i - 1;
    assert InRun(w, ended, runLen, i) && InRun(w, ended, runLen, before);
    DivStep(before, runLen);
  }

  /** Runs and palette entries of a packed summary. */
  datatype PackedSummary = PackedSummary(runs: nat, palette: nat)

  /** The current run of the walk ends; it is coded exactly when packed runs may still fit. */
  method EndRun(storage: array<byte>, count: nat, runs: nat, runLen: nat, width: nat, length: nat, start: nat, final: bool,
                ghost w: seq<nat>, ghost n: nat, ghost palette: seq<nat>, ghost ended: seq<nat>, ghost starts: seq<nat>)
    returns (kept: bool, more: nat, ghost grown: seq<nat>)
    requires storage.Length == STORAGE_BYTES && |palette| == count <= PALETTE_CAPACITY && |ended| == |starts| == runs && runLen > 0
    requires RankedKept(storage[..], palette, ended, starts, PACKED_RUN_BLOCK, runs)
    requires n <= |w| && RunsKept(w, ended, starts, runLen, n, Some(width), length, start) && RunsChecked(w, ended, starts, palette, Some(width))
    requires if final then n == |w| else n < |w| && w[n] != width
    modifies storage
    ensures !kept ==> !PackedFits(w, runLen)
    ensures kept ==>
              && |grown| == more <= PALETTE_CAPACITY && runs < PACKED_RUN_CAPACITY
              && RankedKept(storage[..], grown, ended + [width], starts + [start], PACKED_RUN_BLOCK, runs + 1)
              && RunStarts(w, starts + [start], runLen) && Ended(w, ended + [width], runLen, n)
              && (!final ==> n == Times(runs + 1, runLen))
              && RunsChecked(w, ended + [width], starts + [start], grown, if final then None else Some(w[n]))
  {
    hide RankedKept, Ended, RunStarts, Start, RunsChecked, PackedFits, RunsKept;
    kept, more, grown := FinishPacked(storage, count, runs, runLen, width, length, start, final, palette, ended, starts);
    if kept {
      RunEnded(w, ended, starts, runLen, n, width, length, start);
      RunIn(w, ended, starts, runLen, n, width, length, start);
      RunChecked(w, ended, starts, palette, grown, width, start, if final then None else Some(w[n]));
    } else {
      RunRefused(w, ended, starts, palette, runLen, n, width, length, start, final);
    }
  }

  method BuildPackedRuns(storage: array<byte>, w: seq<nat>, runLen: nat) returns (built: Option<PackedSummary>)
    requires storage.Length == STORAGE_BYTES && |w| <= U32_MAX
    modifies storage
    ensures built.Some? <==> PackedFits(w, runLen)
    ensures built.Some? ==>
              && DescribesPacked(storage[..], runLen, w) && built.value.runs <= U32_MAX && built.value.palette <= U32_MAX
  {
    hide RankedKept, Ended, RunStarts, Start, DescribesPacked, RunsChecked, PackedFits;
    if runLen == 0 {
      NoLength(w);
      return None;
    }
    var count: nat, runs: nat := 0, 0;
    var current: Option<nat> := None;
    var length: nat, start: nat, cursor: nat := 0, 0, 0;
    ghost var palette: seq<nat>, ended: seq<nat>, starts: seq<nat> := [], [], [];
    NoRunsKept(storage[..], w, runLen);
    var valid := true;
    for index := 0 to |w|
      invariant cursor == Start(w, index) && (current.None? <==> index == 0)
      invariant valid ==>
                  && |palette| == count <= PALETTE_CAPACITY && |ended| == |starts| == runs <= PACKED_RUN_CAPACITY
                  && RankedKept(storage[..], palette, ended, starts, PACKED_RUN_BLOCK, runs)
                  && RunsKept(w, ended, starts, runLen, index, current, length, start)
                  && RunsChecked(w, ended, starts, palette, current)
      invariant !valid ==> !PackedFits(w, runLen)
    {
      StartNext(w, index);
      EndedNothing(w, runLen);
      if current == None {
        current, length, start := Some(w[index]), 1, cursor;
        FirstRun(w, ended, starts, palette, current);
      } else if current == Some(w[index]) {
        length := length + 1;
      } else {
        if valid {
          var kept, more;
          ghost var grown;
          kept, more, grown := EndRun(storage, count, runs, runLen, current.value, length, start, false, w, index, palette, ended, starts);
          palette, ended, starts := grown, ended + [current.value], starts + [start];
          count, runs := more, runs + 1;
          valid := kept;
        }
        current, length, start := Some(w[index]), 1, cursor;
      }
      cursor := cursor + w[index];
    }
    if valid && current.Some? {
      var kept, more;
      ghost var grown;
      kept, more, grown := EndRun(storage, count, runs, runLen, current.value, length, start, true, w, |w|, palette, ended, starts);
      palette, ended, starts := grown, ended + [current.value], starts + [start];
      count, runs := more, runs + 1;
      valid := kept;
    } else {
      EndedNothing(w, runLen);
      NoneFollows(w, ended, starts, palette, current);
    }
    if !valid {
      return None;
    }
    PackedFromRuns(storage[..], palette, w, ended, starts, runLen);
    PackedRunsFit(w, ended, starts, palette, runLen);
    built := Some(PackedSummary(runs, count));
  }

  lemma NoLength(w: seq<nat>)
    ensures !PackedFits(w, 0)
  {
  }

  lemma FirstRun(w: seq<nat>, ended: seq<nat>, starts: seq<nat>, palette: seq<nat>, current: Option<nat>)
    ensures ended == [] && RunsChecked(w, ended, starts, palette, None) ==> RunsChecked(w, ended, starts, palette, current)
  {
  }

  lemma NoneFollows(w: seq<nat>, ended: seq<nat>, starts: seq<nat>, palette: seq<nat>, current: Option<nat>)
    ensures RunsChecked(w, ended, starts, palette, current) ==> RunsChecked(w, ended, starts, palette, None)
  {
  }

  lemma RunIn(w: seq<nat>, ended: seq<nat>, starts: seq<nat>, runLen: nat, n: nat, width: nat, length: nat, start: nat)
    requires n <= |w| && RunsKept(w, ended, starts, runLen, n, Some(width), length, start)
    ensures width in w
  {
    hide Start, Ended, RunStarts;
    assert w[n - length] == width;
  }

  lemma NoRunsKept(s: Storage, w: seq<nat>, runLen: nat)
    ensures RankedKept(s, [], [], [], PACKED_RUN_BLOCK, 0) && RunsKept(w, [], [], runLen, 0, None, 0, 0)
    ensures RunsChecked(w, [], [], [], None)
    ensures Start(w, 0) == 0
  {
  }
}
