/** Choosing the strongest compact geometry of one array: a first walk feeds every
    encoding at once, then one is completed or the array is left to replay. */
module GeometryBuild {
  import opened Arith
  import opened Base
  import opened Widths
  import opened GeometryStorage
  import opened GeometryLookup
  import opened RecursiveGeometry
  import opened GeometryRuns
  import opened GeometryRanked
  import opened GeometryFactor
  import opened GeometryShape
  import opened GeometryPasses
  import opened RecursiveSignature

  // ----- what the walk does with a recursive shape -----

  /** A recursive shape is tried: there are too many items for the ranked summary and the
      first one is nested. */
  ghost predicate Tried(m: seq<Measure>) {
    |m| > RANKED_CAPACITY && Narrow(m[0]) && m[0].nestedDepth != 0
  }

  /** The candidate is alive, without a period, since the 64th item was passed over. */
  ghost predicate Waiting(m: seq<Measure>, n: nat)
    requires n <= |m|
  {
    && Tried(m) && Alive(m, PERIOD_CAPACITY) && !Narrow(m[PERIOD_CAPACITY - 1])
    && forall i :: PERIOD_CAPACITY <= i < n ==> !Narrow(m[i])
  }

  /** Item `j` makes the walk divide by a period of zero. */
  ghost predicate PanicsAt(m: seq<Measure>, j: nat)
    requires j < |m|
  {
    j >= PERIOD_CAPACITY && Waiting(m, j) && m[j].consumed < U16_LIMIT
  }

  /** One of the first `k` items does. */
  ghost predicate PanicsBefore(m: seq<Measure>, k: nat)
    requires k <= |m|
  {
    exists j: nat :: j < k && PanicsAt(m, j)
  }

  /** Some width repeats neither the first one nor a line. */
  ghost predicate Irregular(m: seq<Measure>) {
    |m| >= 2 && !Uniform(WidthsOf(m), |m|) && !Line(WidthsOf(m), |m|)
  }

  /** The walk ends with a recursive shape: no stronger encoding applies, every item among
      the first 64 is classed without a conflict, and every later one is narrow and has the
      signature that the shortest period of the first 64 gives it. */
  ghost predicate KeepsShape(m: seq<Measure>) {
    Tried(m) && AllNarrow(m, |m|) && Irregular(m) && Alive(m, |m|)
  }

  /** A shape is kept although some item has another width than the item it repeats. */
  ghost predicate WrongShape(m: seq<Measure>) {
    KeepsShape(m) && exists i: nat :: i < |m| && !RepeatsWidth(m, i)
  }

  /** What the walk knows of the candidate after `n` items. */
  ghost predicate ShapeWalked(s: Storage, kind: Kind, shape: Shape, m: seq<Measure>, n: nat) {
    && n <= |m|
    && (n == 0 ==> shape == Shape(false, false, 0, 0, Zeros(PERIOD_CAPACITY)))
    && (shape.attempted <==> n > 0 && Tried(m))
    && (shape.candidate ==> shape.attempted && kind == RecursiveShape && ShapeKept(s, shape, m, n))
    && (n <= PERIOD_CAPACITY || AllNarrow(m, n) ==> (shape.candidate <==> shape.attempted && Alive(m, n)))
    && (n > PERIOD_CAPACITY && !Narrow(m[PERIOD_CAPACITY - 1]) ==> (shape.candidate <==> Waiting(m, n)))
    && (forall j: nat :: j < n ==> !PanicsAt(m, j))
  }

  lemma AliveNext(m: seq<Measure>, n: nat)
    requires n < |m|
    ensures Alive(m, n + 1) <==> Alive(m, n) && (Narrow(m[n]) ==> Lives(m, n))
    ensures AllNarrow(m, n + 1) <==> AllNarrow(m, n) && Narrow(m[n])
  {
    hide Lives, Narrow;
    if Alive(m, n + 1) {
      forall i: nat | i < n && Narrow(m[i]) ensures Lives(m, i) {
      }
    }
  }

  lemma WaitingNext(m: seq<Measure>, n: nat)
    requires n < |m|
    ensures Waiting(m, n + 1) <==> Waiting(m, n) && (n >= PERIOD_CAPACITY ==> !Narrow(m[n]))
    ensures n <= PERIOD_CAPACITY ==> (Waiting(m, n) <==> Tried(m) && Alive(m, PERIOD_CAPACITY) && !Narrow(m[PERIOD_CAPACITY - 1]))
  {
    hide Alive, Narrow, Tried;
    assert Tried(m) ==> |m| > RANKED_CAPACITY by { TriedMany(m); }
  }

  lemma TriedMany(m: seq<Measure>)
    ensures Tried(m) ==> |m| > RANKED_CAPACITY
  {
  }

  /** An item too wide for every encoding is passed over. */
  lemma WidePassed(s: Storage, kind: Kind, shape: Shape, m: seq<Measure>, n: nat)
    requires ShapeWalked(s, kind, shape, m, n) && n < |m| && !Narrow(m[n])
    ensures ShapeWalked(s, kind, shape, m, n + 1)
  {
    AliveNext(m, n);
    WaitingNext(m, n);
    if shape.candidate {
      PassedOver(s, shape, m, n);
    }
    hide Alive, ShapeKept, Classable;
  }

  /** Without a candidate the next item only matters when it is the first. */
  lemma NoCandidate(s: Storage, kind: Kind, shape: Shape, after: Storage, next: Kind, m: seq<Measure>, n: nat)
    requires ShapeWalked(s, kind, shape, m, n) && n < |m| && Narrow(m[n]) && !shape.candidate && (n == 0 ==> !Tried(m))
    ensures ShapeWalked(after, next, shape, m, n + 1) && !PanicsAt(m, n)
  {
    AliveNext(m, n);
    WaitingNext(m, n);
    hide Alive, ShapeKept, Classable;
  }

  /** The candidate after one more item. */
  lemma CandidateNext(before: Storage, s: Storage, shape: Shape, next: Option<Shape>, m: seq<Measure>, n: nat)
    requires n < |m| && Narrow(m[n]) && Tried(m)
    requires if n == 0 then true else ShapeWalked(before, RecursiveShape, shape, m, n) && shape.candidate
    requires next.None? <==> NoPeriod(m, n)
    requires next.Some? ==> next.value.attempted
    requires next.Some? && next.value.candidate ==> ShapeKept(s, next.value, m, n + 1)
    requires next.Some? && (n < PERIOD_CAPACITY || AllNarrow(m, n)) ==> (next.value.candidate <==> Lives(m, n))
    requires next.Some? && n >= PERIOD_CAPACITY && !Narrow(m[PERIOD_CAPACITY - 1]) ==> !next.value.candidate
    ensures next.None? <==> PanicsAt(m, n)
    ensures next.Some? ==> ShapeWalked(s, RecursiveShape, next.value, m, n + 1)
  {
    AliveNext(m, n);
    WaitingNext(m, n);
    if Waiting(m, n) && n >= PERIOD_CAPACITY {
      RoomLater(m, n);
    }
    hide ShapeKept, Lives, Classable;
    assert n == 0 ==> Alive(m, 0);
    hide Alive;
    if n >= PERIOD_CAPACITY && !Narrow(m[PERIOD_CAPACITY - 1]) {
      assert Waiting(m, n);
    }
  }

  lemma NoShapes(s: Storage, shape: Shape, m: seq<Measure>)
    requires shape == Shape(true, true, 0, 0, Zeros(PERIOD_CAPACITY))
    ensures ShapeKept(s, shape, m, 0)
  {
  }

  // ----- the accumulator -----

  /** What the storage holds for the summaries filled while walking: at most one of them. */
  ghost predicate SummaryKept(s: Storage, kind: Kind, ranked: bool, palette: Palette, factor: Factor, m: seq<Measure>, n: nat) {
    var w := WidthsOf(m);
    && n <= |m|
    && (ranked ==> kind == Ranked && RankedKept(s, palette.widths, w, Starts(w), RANKED_BLOCK, n))
    && (factor.candidate && factor.valid ==> kind == Factorized && FactorKept(s, factor.base, w, n))
  }

  class GeometryBuilder {
    var affine: Affine
    var fixedWidth: Option<nat>
    var runs: Runs
    var palette: Palette
    var factor: Factor
    var shape: Shape
    var items: nat
    var compressible: bool
    var sawNested: bool
    var ranked: bool
    ghost var ended: seq<nat>

    /** Which encodings are in play, whatever the widths were. */
    ghost predicate InPlay(m: seq<Measure>)
      reads this
    {
      && ValidPalette(palette) && Sized(runs) && factor.base <= U32_MAX
      && (ranked ==> |m| <= RANKED_CAPACITY)
      && (factor.candidate ==> |m| > RANKED_CAPACITY && !shape.attempted)
      && (shape.attempted ==> |m| > RANKED_CAPACITY && runs.periodicFailed)
    }

    /** Encodings that need no storage while walking. */
    ghost predicate Kept(m: seq<Measure>, n: nat)
      reads this
    {
      var w := WidthsOf(m);
      n <= |m| && FixedKept(fixedWidth, w, n) && AffineKept(affine, w, n) && Walking(runs, w, n, ended)
    }

    ghost predicate Summarized(geometry: Geometry, m: seq<Measure>, n: nat)
      requires geometry.Valid()
      reads this, geometry, geometry.storage
    {
      SummaryKept(geometry.storage[..], geometry.kind, ranked, palette, factor, m, n)
    }

    ghost predicate Shaped(geometry: Geometry, m: seq<Measure>, n: nat)
      requires geometry.Valid()
      reads this, geometry, geometry.storage
    {
      ShapeWalked(geometry.storage[..], geometry.kind, shape, m, n)
    }

    /** After `n` items. Once one of them was passed over for its width, no encoding will
        be chosen, but the walk goes on feeding them. */
    ghost predicate Observed(geometry: Geometry, m: seq<Measure>, n: nat)
      reads this, geometry, geometry.storage
    {
      && geometry.Valid() && items == n <= |m| && (compressible <==> AllNarrow(m, n))
      && InPlay(m) && Shaped(geometry, m, n) && (n == 0 ==> (factor.candidate <==> |m| > RANKED_CAPACITY))
      && (compressible ==> Kept(m, n) && Summarized(geometry, m, n))
    }

    constructor ()
      ensures fixedWidth == None && affine == Affine(0, 0, false) && runs == NoRuns() && ended == []
      ensures palette == Palette([], false, None) && items == 0 && compressible && !ranked
      ensures factor == Factor(false, false, false, 0) && shape == Shape(false, false, 0, 0, Zeros(PERIOD_CAPACITY))
    {
      affine, fixedWidth, runs, ended := Affine(0, 0, false), None, NoRuns(), [];
      palette, factor := Palette([], false, None), Factor(false, false, false, 0);
      shape := Shape(false, false, 0, 0, Zeros(PERIOD_CAPACITY));
      items, compressible, sawNested, ranked := 0, true, false, false;
    }

    /** Picks the summary that is filled while walking. */
    method Prepare(geometry: Geometry, ghost m: seq<Measure>, count: nat)
      requires geometry.Valid() && count == |m| && fixedWidth == None && affine == Affine(0, 0, false) && runs == NoRuns() && ended == []
      requires palette == Palette([], false, None) && items == 0 && !ranked
      requires factor == Factor(false, false, false, 0) && shape == Shape(false, false, 0, 0, Zeros(PERIOD_CAPACITY)) && compressible
      modifies this`ranked, this`factor, geometry, geometry.storage
      ensures Observed(geometry, m, 0)
    {
      ranked := count <= RANKED_CAPACITY;
      factor := Factor(!ranked, !ranked, false, 0);
      geometry.Reset(if ranked then Ranked else Factorized);
      NothingSeen(m);
      NothingSummarized(geometry.storage[..], geometry.kind, ranked, factor, m);
      NothingShaped(geometry.storage[..], geometry.kind, shape, m);
    }

    /** The palette and, for few items, the ranked summary. */
    method PushPalette(geometry: Geometry, index: nat, start: nat, width: nat, ghost w: seq<nat>)
      requires geometry.Valid() && index < |w| && width == w[index] && start == Start(w, index) && ValidPalette(palette)
      requires ranked ==> |w| <= RANKED_CAPACITY
      modifies this`palette, this`ranked, geometry.storage
      ensures ValidPalette(palette) && (ranked ==> old(ranked))
      ensures ranked && old(RankedKept(geometry.storage[..], palette.widths, w, Starts(w), RANKED_BLOCK, index)) ==>
                RankedKept(geometry.storage[..], palette.widths, w, Starts(w), RANKED_BLOCK, index + 1)
      ensures !old(ranked) ==> geometry.storage[..] == old(geometry.storage[..])
    {
      hide RankedKept, Start;
      var (more, class_) := Classify(palette, width);
      if ranked && class_.Some? {
        ranked := PushRanked(geometry.storage, palette.widths, more.widths, class_.value, width, index, start, w);
      }
      ranked := ranked && !more.failed && class_.Some?;
      palette := more;
    }

    /** The recursive-shape candidate, tried when the first of many items is nested. The
        walk panics exactly when there is no period to divide by. */
    method PushShapes(geometry: Geometry, index: nat, measure: Measure, ghost m: seq<Measure>) returns (ok: bool)
      requires geometry.Valid() && index < |m| && m[index] == measure && Narrow(measure)
      requires Shaped(geometry, m, index) && (factor.candidate ==> !shape.attempted)
      requires index == 0 ==> (factor.candidate <==> |m| > RANKED_CAPACITY)
      modifies this`shape, this`factor, this`runs, geometry, geometry.storage
      ensures geometry.Valid() && (ok <==> !PanicsAt(m, index)) && (ok ==> Shaped(geometry, m, index + 1))
      ensures runs == old(runs).(periodicFailed := runs.periodicFailed) && (old(runs.periodicFailed) ==> runs.periodicFailed)
      ensures factor == old(factor).(candidate := factor.candidate, valid := factor.valid) && (factor.candidate ==> old(factor.candidate))
      ensures shape.attempted && !old(shape.attempted) ==> runs.periodicFailed && !factor.candidate && |m| > RANKED_CAPACITY
      ensures old(shape.attempted) ==> shape.attempted
      ensures shape.attempted == old(shape.attempted) ==> runs == old(runs) && factor == old(factor) && geometry.kind == old(geometry.kind)
      ensures !shape.attempted ==> geometry.storage[..] == old(geometry.storage[..])
    {
      hide ShapeKept, Alive, Lives, Classable;
      ghost var before, first: Storage := shape, geometry.storage[..];
      if shape.candidate || (index == 0 && measure.nestedDepth != 0 && factor.candidate) {
        if !shape.attempted {
          geometry.Reset(RecursiveShape);
          shape := shape.(attempted := true, candidate := true);
          factor := factor.(candidate := false, valid := false);
          runs := runs.(periodicFailed := true);
          NoShapes(geometry.storage[..], shape, m);
        }
        var pushed := PushShape(geometry.storage, shape, index, measure.consumed, measure.shape, m);
        CandidateNext(first, geometry.storage[..], before, pushed, m, index);
        if pushed.None? {
          return false;
        }
        shape := pushed.value;
      } else {
        NoCandidate(first, geometry.kind, shape, first, geometry.kind, m, index);
      }
      ok := true;
    }

    /** The summaries that need storage. */
    method PushSummary(index: nat, start: nat, measure: Measure, geometry: Geometry, ghost m: seq<Measure>) returns (ok: bool)
      requires geometry.Valid() && index < |m| && m[index] == measure && start == Start(WidthsOf(m), index)
      requires InPlay(m) && Shaped(geometry, m, index) && Narrow(measure)
      requires index == 0 ==> (factor.candidate <==> |m| > RANKED_CAPACITY)
      modifies this`palette, this`ranked, this`shape, this`factor, this`runs, geometry, geometry.storage
      ensures geometry.Valid() && (ok <==> !PanicsAt(m, index)) && (ok ==> InPlay(m) && Shaped(geometry, m, index + 1))
      ensures ok && old(Summarized(geometry, m, index)) ==> Summarized(geometry, m, index + 1)
      ensures runs == old(runs).(periodicFailed := runs.periodicFailed) && (runs.periodicFailed || runs == old(runs))
    {
      hide RankedKept, FactorKept, Start, ShapeWalked, PanicsAt;
      ghost var w := WidthsOf(m);
      ghost var first: Storage := geometry.storage[..];
      var width := measure.consumed;
      PushPalette(geometry, index, start, width, w);
      RankedApart(first, geometry.storage[..], geometry.kind, shape, m, index);
      ok := PushShapes(geometry, index, measure, m);
      if !ok {
        return;
      }
      if factor.candidate && factor.valid {
        ghost var shaped: Storage := geometry.storage[..];
        factor := PushFactor(geometry.storage, factor, index, width, w);
        ShapelessApart(shaped, geometry.storage[..], geometry.kind, shape, m, index + 1);
      }
    }

    /** The part of one observation that needs widths alone. */
    method PushWidths(index: nat, width: nat, ghost m: seq<Measure>)
      requires index < |m| <= U32_MAX && width == m[index].consumed <= U32_MAX && items == index && InPlay(m)
      requires compressible ==> Kept(m, index) && AllNarrow(m, index)
      modifies this`affine, this`fixedWidth, this`runs, this`ended, this`items
      ensures items == index + 1 && InPlay(m) && (compressible ==> Kept(m, index + 1))
    {
      hide FixedKept, AffineKept, Walking;
      ghost var w := WidthsOf(m);
      if compressible {
        assert index > 0 ==> Narrow(m[0]);
        FixedKeeps(fixedWidth, w, index);
        AffineKeeps(affine, w, index);
        ghost var more := PushKeeps(runs, w, index, ended, shape.attempted);
        ended := more;
      }
      fixedWidth := FixedStep(fixedWidth, width);
      affine := AffineStep(affine, items, width);
      PeriodsStayFailed(runs, width, shape.attempted);
      runs := PushRun(runs, width, shape.attempted);
      items := items + 1;
    }

    /** Observes one exact item measurement. An item wider than 32 bits is passed over; the
        array will be replayed. */
    method Push(index: nat, start: nat, measure: Measure, geometry: Geometry, ghost m: seq<Measure>) returns (ok: bool)
      requires index < |m| <= U32_MAX && m[index] == measure && start == Start(WidthsOf(m), index)
      requires Observed(geometry, m, index)
      modifies this, geometry, geometry.storage
      ensures geometry.Valid() && (ok <==> !PanicsAt(m, index))
      ensures ok ==> Observed(geometry, m, index + 1)
    {
      hide FixedKept, AffineKept, Walking, SummaryKept, ShapeWalked, Start, WidthsOf;
      AliveNext(m, index);
      sawNested := sawNested || measure.nestedDepth != 0;
      if measure.consumed > U32_MAX {
        WidePassed(geometry.storage[..], geometry.kind, shape, m, index);
        WideStays(m, index);
        compressible := false;
        items := items + 1;
        return true;
      }
      ok := PushSummary(index, start, measure, geometry, m);
      if !ok {
        return;
      }
      if compressible {
        WalkingFree(old(runs), runs, WidthsOf(m), index, ended);
      }
      PushWidths(index, measure.consumed, m);
    }

    /** The last run ends. */
    method Complete(ghost m: seq<Measure>)
      requires InPlay(m) && (compressible ==> Kept(m, |m|))
      modifies this`runs, this`ended
      ensures compressible ==> Walked(runs, WidthsOf(m), ended)
    {
      hide FixedKept, AffineKept, Walking, Walked;
      if compressible {
        ghost var all := CompleteKeeps(runs, WidthsOf(m), ended, shape.attempted);
        ended := all;
      }
      runs := CompleteRuns(runs, shape.attempted);
    }

    /** Everything the first walk established. */
    ghost predicate Finished(geometry: Geometry, m: seq<Measure>)
      reads this, geometry, geometry.storage
    {
      && geometry.Valid() && |m| <= U32_MAX && (compressible <==> AllNarrow(m, |m|))
      && (compressible ==>
            && ValidPalette(palette) && factor.base <= U32_MAX && (ranked ==> |m| <= RANKED_CAPACITY)
            && (factor.candidate ==> |m| > RANKED_CAPACITY && !shape.attempted)
            && FixedKept(fixedWidth, WidthsOf(m), |m|) && AffineKept(affine, WidthsOf(m), |m|)
            && Walked(runs, WidthsOf(m), ended)
            && Summarized(geometry, m, |m|) && Shaped(geometry, m, |m|))
    }
  }

  /** Filling the ranked summary, no shape is tried. */
  lemma RankedApart(before: Storage, after: Storage, kind: Kind, shape: Shape, m: seq<Measure>, n: nat)
    requires ShapeWalked(before, kind, shape, m, n) && (|m| <= RANKED_CAPACITY || after == before)
    ensures ShapeWalked(after, kind, shape, m, n)
  {
    hide ShapeKept, Alive, PanicsAt;
  }

  /** Filling the four axes, no shape is tried. */
  lemma ShapelessApart(before: Storage, after: Storage, kind: Kind, shape: Shape, m: seq<Measure>, n: nat)
    requires ShapeWalked(before, kind, shape, m, n) && !shape.attempted
    ensures ShapeWalked(after, kind, shape, m, n)
  {
    hide ShapeKept, Alive, PanicsAt;
  }

  lemma WideStays(m: seq<Measure>, n: nat)
    requires n < |m| && !Narrow(m[n])
    ensures !AllNarrow(m, n + 1) && !PanicsAt(m, n)
  {
  }

  /** Giving up periods keeps the walk. */
  lemma WalkingFree(before: Runs, after: Runs, w: seq<nat>, n: nat, ended: seq<nat>)
    requires n <= |w| && Walking(before, w, n, ended) && after == before.(periodicFailed := after.periodicFailed)
    requires after.periodicFailed || after == before
    ensures Walking(after, w, n, ended)
  {
  }

  lemma PeriodsStayFailed(r: Runs, width: nat, shaped: bool)
    requires Sized(r)
    ensures r.periodicFailed ==> PushRun(r, width, shaped).periodicFailed
  {
  }

  lemma NothingSeen(m: seq<Measure>)
    ensures FixedKept(None, WidthsOf(m), 0) && AffineKept(Affine(0, 0, false), WidthsOf(m), 0)
    ensures Walking(NoRuns(), WidthsOf(m), 0, [])
  {
    EndedNothing(WidthsOf(m), 0);
    assert NoRuns().candidates[0];
  }

  lemma NothingSummarized(s: Storage, kind: Kind, ranked: bool, factor: Factor, m: seq<Measure>)
    requires ranked == (|m| <= RANKED_CAPACITY) && kind == (if ranked then Ranked else Factorized)
    requires factor == Factor(!ranked, !ranked, false, 0)
    ensures SummaryKept(s, kind, ranked, Palette([], false, None), factor, m, 0)
  {
  }

  lemma NothingShaped(s: Storage, kind: Kind, shape: Shape, m: seq<Measure>)
    requires shape == Shape(false, false, 0, 0, Zeros(PERIOD_CAPACITY))
    ensures ShapeWalked(s, kind, shape, m, 0)
  {
    hide ShapeKept, Alive;
  }

  // ----- choosing -----

  /** The summary describes the widths, but for a shape that is kept wrongly. */
  ghost predicate Exact(geometry: Geometry, m: seq<Measure>)
    requires geometry.Valid()
    reads geometry, geometry.storage
  {
    Describes(geometry.kind, geometry.meta, geometry.storage[..], WidthsOf(m)) <==> !WrongShape(m)
  }

  lemma FormulaFromAffine(a: Affine, w: seq<nat>)
    requires AffineKept(a, w, |w|) && !a.failed && |w| >= 2
    ensures var raw := if a.slope < 0 then a.slope + 0x1_0000_0000 else a.slope;
            0 <= raw <= U32_MAX && AsI32(raw) == a.slope && DescribesFormula(a.base, AsI32(raw), w)
  {
    forall i | 0 <= i < |w| ensures w[i] == a.base + a.slope * i {
      assert OnLine(w, i);
    }
  }

  /** Runs of one length that repeat by a period describe the widths. */
  lemma PeriodicFromRuns(s: Storage, r: Runs, w: seq<nat>, ended: seq<nat>, period: nat, cycle: nat)
    requires Walked(r, w, ended) && !r.periodicFailed && w != [] && Sized(r)
    requires 1 <= period <= PERIOD_CAPACITY && period <= r.count && r.candidates[period - 1]
    requires forall k: nat :: k < period ==> PeriodWidth(s, k) == r.periods[k]
    requires cycle == PeriodCycle(s, period)
    ensures DescribesPeriodic(s, period, r.common, cycle, w)
  {
    hide PeriodWidth;
    assert InRun(w, ended, r.common, 0);
    forall i: nat | i < |w| ensures RunDescribes(s, period, r.common, w, i) {
      assert InRun(w, ended, r.common, i);
      var k := Quot(i, r.common);
      assert Repeats(r.periods, ended, period - 1, k);
      if k < period {
        ModSmall(k, period);
      }
    }
  }

  /** Ranked widths are narrow, so few items end below 2^32. */
  lemma RankedFits(s: Storage, palette: Palette, w: seq<nat>)
    requires ValidPalette(palette) && RankedKept(s, palette.widths, w, Starts(w), RANKED_BLOCK, |w|)
    ensures Start(w, |w|) <= U32_MAX
  {
    forall i | 0 <= i < |w| ensures w[i] < U16_LIMIT {
      assert CodeStored(s, palette.widths, w, i);
    }
    NarrowStart(w, |w|);
  }

  lemma {:induction false} NarrowStart(w: seq<nat>, n: nat)
    requires n <= |w| && forall i :: 0 <= i < |w| ==> w[i] < U16_LIMIT
    ensures Start(w, n) <= n * U16_LIMIT
  {
    if n > 0 {
      NarrowStart(w, n - 1);
    }
  }

  /** Stores the widths of one period and sums them. */
  method PutPeriods(storage: array<byte>, periods: seq<nat>, period: nat) returns (cycle: nat)
    requires storage.Length == STORAGE_BYTES && |periods| == PERIOD_CAPACITY && period <= PERIOD_CAPACITY
    requires forall k :: 0 <= k < period ==> periods[k] < U16_LIMIT
    modifies storage
    ensures forall k: nat :: k < period ==> PeriodWidth(storage[..], k) == periods[k]
    ensures cycle == PeriodCycle(storage[..], period) <= U32_MAX
  {
    hide GetU32;
    cycle := 0;
    for index := 0 to period
      invariant forall k: nat :: k < index ==> PeriodWidth(storage[..], k) == periods[k]
      invariant cycle == PeriodCycle(storage[..], index) <= index * U16_LIMIT
    {
      ghost var before: Storage := storage[..];
      PutU32(storage, index * 4, periods[index]);
      forall k: nat | k < index ensures PeriodWidth(storage[..], k) == PeriodWidth(before, k) {
        U32Kept(before, storage[..], index * 4, index * 4 + 4, k * 4);
      }
      SameCycle(before, storage[..], index);
      cycle := cycle + periods[index];
    }
  }

  lemma {:induction false} SameCycle(before: Storage, after: Storage, n: nat)
    requires n <= PERIOD_CAPACITY && forall k: nat :: k < n ==> PeriodWidth(after, k) == PeriodWidth(before, k)
    ensures PeriodCycle(after, n) == PeriodCycle(before, n)
  {
    hide PeriodWidth;
    if n > 0 {
      SameCycle(before, after, n - 1);
    }
  }

  lemma ReplayExact(geometry: Geometry, m: seq<Measure>)
    requires geometry.Valid() && geometry.kind == Replay && !KeepsShape(m)
    ensures Exact(geometry, m)
  {
  }

  /** A summary that describes the widths is exact when no shape is kept. */
  lemma DescribedExact(geometry: Geometry, m: seq<Measure>)
    requires geometry.Valid() && Describes(geometry.kind, geometry.meta, geometry.storage[..], WidthsOf(m)) && !KeepsShape(m)
    ensures Exact(geometry, m)
  {
  }

  /** A kept shape is the table of the shortest period, with the widths of the first items. */
  ghost predicate ShapeRetained(geometry: Geometry, m: seq<Measure>)
    requires geometry.Valid() && |m| >= PERIOD_CAPACITY
    reads geometry, geometry.storage
  {
    var s, period := geometry.storage[..], geometry.meta[0];
    && geometry.kind.RecursiveShape? && period == ShapePeriod(m) && ShapeTable(s, period) && geometry.meta[1] == ShapeCycle(s, period)
    && forall k: nat :: k < period ==> ShapeWidth(s, k) == m[k].consumed
  }

  /** The shape filled while walking is exact. */
  lemma ShapeExact(geometry: Geometry, shape: Shape, m: seq<Measure>)
    requires geometry.Valid() && geometry.kind == RecursiveShape && ShapeKept(geometry.storage[..], shape, m, |m|) && KeepsShape(m)
    requires geometry.meta[0] == shape.period
    requires ShapeTable(geometry.storage[..], shape.period) && geometry.meta[1] == ShapeCycle(geometry.storage[..], shape.period)
    ensures Exact(geometry, m)
  {
    hide ShapeKept, ShapeTable, ShapeCycle, ShapeDescribes, Alive, RepeatsWidth;
    ShapeDescribesExactly(geometry.storage[..], shape, m);
  }

  /** What is left once neither one width nor a line applies. */
  ghost predicate Undirected(b: GeometryBuilder, geometry: Geometry, m: seq<Measure>)
    reads b, geometry, geometry.storage
  {
    b.Finished(geometry, m) && b.compressible && m != [] && (Tried(m) && Alive(m, |m|) <==> KeepsShape(m))
  }

  /** Selects the strongest proven encoding. */
  method Choose(b: GeometryBuilder, geometry: Geometry, m: seq<Measure>)
    requires b.Finished(geometry, m)
    modifies geometry, geometry.storage
    ensures geometry.Valid() && Exact(geometry, m)
    ensures KeepsShape(m) ==> |m| > RANKED_CAPACITY && ShapeRetained(geometry, m)
    ensures !AllNarrow(m, |m|) ==> geometry.kind == Replay
  {
    hide FixedKept, AffineKept, Walked, RankedKept, FactorKept, ShapeWalked, Describes, Exact, Alive, Irregular, Tried, ShapeRetained;
    if !b.compressible {
      geometry.Reset(Replay);
      ReplayExact(geometry, m);
      return;
    }
    var direct := ChooseDirect(b, geometry, m);
    if direct {
      return;
    }
    var walked := ChooseWalked(b, geometry, m);
    if walked {
      return;
    }
    ChooseSecond(b, geometry, m);
  }

  lemma Regular(b: GeometryBuilder, m: seq<Measure>)
    requires m != [] && AllNarrow(m, |m|) && FixedKept(b.fixedWidth, WidthsOf(m), |m|) && AffineKept(b.affine, WidthsOf(m), |m|)
    ensures b.fixedWidth.Some? && b.affine.base <= U32_MAX
    ensures b.fixedWidth.value != USIZE_MAX && b.fixedWidth.value <= U32_MAX <==> Uniform(WidthsOf(m), |m|)
    ensures |m| >= 2 ==> (!b.affine.failed <==> Line(WidthsOf(m), |m|))
    ensures Uniform(WidthsOf(m), |m|) ==> forall i :: 0 <= i < |m| ==> WidthsOf(m)[i] == b.fixedWidth.value
  {
    assert Narrow(m[0]);
    hide Line;
  }

  /** One width, an arithmetic progression, or nothing at all. */
  method ChooseDirect(b: GeometryBuilder, geometry: Geometry, m: seq<Measure>) returns (chosen: bool)
    requires b.Finished(geometry, m) && b.compressible
    modifies geometry, geometry.storage
    ensures geometry.Valid() && (chosen ==> Exact(geometry, m) && !KeepsShape(m))
    ensures !chosen ==> Undirected(b, geometry, m)
  {
    hide Walked, RankedKept, FactorKept, ShapeWalked, Uniform, Line, FixedKept, AffineKept, Alive;
    chosen := true;
    if |m| == 0 {
      geometry.Reset(Fixed);
      return;
    }
    Regular(b, m);
    if b.fixedWidth.value != USIZE_MAX && b.fixedWidth.value <= U32_MAX {
      geometry.Reset(Fixed);
      geometry.meta := geometry.meta[0 := b.fixedWidth.value];
      return;
    }
    if |m| >= 2 && !b.affine.failed {
      FormulaFromAffine(b.affine, WidthsOf(m));
      geometry.Reset(Formula);
      var raw := if b.affine.slope < 0 then b.affine.slope + 0x1_0000_0000 else b.affine.slope;
      geometry.meta := geometry.meta[0 := b.affine.base][1 := raw];
      return;
    }
    chosen := false;
  }

  /** At the end of a walk without wide items the candidate says whether a shape is kept. */
  lemma ShapeEnds(s: Storage, kind: Kind, shape: Shape, m: seq<Measure>)
    requires ShapeWalked(s, kind, shape, m, |m|) && AllNarrow(m, |m|) && m != []
    ensures shape.candidate && shape.period != 0 <==> Tried(m) && Alive(m, |m|)
    ensures shape.candidate ==>
              && kind == RecursiveShape && |m| > RANKED_CAPACITY && ShapeKept(s, shape, m, |m|)
              && 1 <= shape.period <= PERIOD_CAPACITY && shape.classes <= PALETTE_CAPACITY
  {
    hide TableKept, CodingKept, Alive, PanicsAt;
    if shape.candidate {
      assert Narrow(m[PERIOD_CAPACITY - 1]);
      TableSized(s, shape.classes, m, |m|);
    }
  }

  /** The summary filled while walking: a recursive shape or four axes. */
  method ChooseWalked(b: GeometryBuilder, geometry: Geometry, m: seq<Measure>) returns (chosen: bool)
    requires Undirected(b, geometry, m)
    modifies geometry, geometry.storage
    ensures geometry.Valid() && (chosen ==> Exact(geometry, m))
    ensures !chosen ==> Undirected(b, geometry, m) && !KeepsShape(m)
    ensures KeepsShape(m) ==> chosen && |m| > RANKED_CAPACITY && ShapeRetained(geometry, m)
  {
    hide FixedKept, AffineKept, Walked, RankedKept, FactorKept, ShapeKept, ShapeWalked, Exact, Alive, Irregular, Tried, ShapeTable, ShapeCycle, ShapeWidth;
    ShapeEnds(geometry.storage[..], geometry.kind, b.shape, m);
    if b.shape.candidate && b.shape.period != 0 {
      ShapeDescribesExactly(geometry.storage[..], b.shape, m);
      var cycle := CycleOf(geometry.storage, b.shape.period);
      geometry.meta := [b.shape.period, cycle, b.shape.classes];
      ShapeExact(geometry, b.shape, m);
      return true;
    }
    if b.factor.candidate && b.factor.valid && b.factor.high {
      FactorizedDescribes(geometry.storage[..], b.factor.base, WidthsOf(m));
      geometry.meta := geometry.meta[0 := b.factor.base];
      DescribedExact(geometry, m);
      return true;
    }
    chosen := false;
  }

  /** A second walk for a shape whose nesting showed up late. */
  method ChooseShape(geometry: Geometry, m: seq<Measure>) returns (chosen: bool)
    requires geometry.Valid() && !KeepsShape(m) && 0 < |m| <= U32_MAX
    modifies geometry, geometry.storage
    ensures geometry.Valid() && (chosen ==> Exact(geometry, m))
  {
    hide Exact, SignaturesTell, KeepsShape, DescribesShape;
    geometry.Reset(RecursiveShape);
    var shape := BuildRecursiveShape(geometry.storage, m);
    if shape.None? {
      return false;
    }
    geometry.meta := [shape.value.period, shape.value.cycle, shape.value.classes];
    DescribedExact(geometry, m);
    chosen := true;
  }

  /** Runs of one length that repeat. */
  method ChoosePeriodic(runs: Runs, geometry: Geometry, m: seq<Measure>, ghost ended: seq<nat>) returns (chosen: bool)
    requires geometry.Valid() && !KeepsShape(m) && m != [] && |m| <= U32_MAX && Walked(runs, WidthsOf(m), ended)
    modifies geometry, geometry.storage
    ensures geometry.Valid() && (chosen ==> Exact(geometry, m))
    ensures !chosen ==> geometry.kind == old(geometry.kind) && geometry.storage[..] == old(geometry.storage[..])
  {
    hide Exact, SignaturesTell, KeepsShape, DescribesPeriodic, Ended, PeriodWidth;
    if runs.periodicFailed {
      return false;
    }
    var period := FirstPeriod(runs.candidates, Min(runs.count, PERIOD_CAPACITY), 0);
    if period.None? {
      return false;
    }
    geometry.Reset(Periodic);
    var cycle := PutPeriods(geometry.storage, runs.periods, period.value);
    PeriodicFromRuns(geometry.storage[..], runs, WidthsOf(m), ended, period.value, cycle);
    geometry.meta := [period.value, runs.common, cycle];
    DescribedExact(geometry, m);
    chosen := true;
  }

  method ChooseIntervals(geometry: Geometry, m: seq<Measure>) returns (chosen: bool)
    requires geometry.Valid() && !KeepsShape(m) && 0 < |m| <= U32_MAX
    modifies geometry, geometry.storage
    ensures geometry.Valid() && (chosen ==> Exact(geometry, m))
    ensures RunCount(WidthsOf(m)) <= INTERVAL_CAPACITY && Start(WidthsOf(m), |m|) <= U32_MAX ==> chosen
  {
    hide Exact, SignaturesTell, KeepsShape, DescribesInterval, RunCount, Start;
    geometry.Reset(Interval);
    var segments := BuildIntervals(geometry.storage, WidthsOf(m));
    if segments.None? {
      return false;
    }
    geometry.meta := geometry.meta[0 := segments.value];
    DescribedExact(geometry, m);
    chosen := true;
  }

  method ChooseFactorized(geometry: Geometry, m: seq<Measure>) returns (chosen: bool)
    requires geometry.Valid() && !KeepsShape(m) && forall i :: 0 <= i < |m| ==> m[i].consumed <= U32_MAX
    modifies geometry, geometry.storage
    ensures geometry.Valid() && (chosen ==> Exact(geometry, m))
  {
    hide Exact, SignaturesTell, KeepsShape, DescribesFactorized;
    geometry.Reset(Factorized);
    var base := BuildFactorized(geometry.storage, WidthsOf(m));
    if base.None? {
      return false;
    }
    geometry.meta := geometry.meta[0 := base.value];
    DescribedExact(geometry, m);
    chosen := true;
  }

  method ChoosePacked(geometry: Geometry, m: seq<Measure>, runLen: nat) returns (chosen: bool)
    requires geometry.Valid() && !KeepsShape(m) && |m| <= U32_MAX && runLen <= U32_MAX
    modifies geometry, geometry.storage
    ensures geometry.Valid() && (chosen ==> Exact(geometry, m))
  {
    hide Exact, SignaturesTell, KeepsShape, DescribesPacked;
    geometry.Reset(PackedRuns);
    var packed := BuildPackedRuns(geometry.storage, WidthsOf(m), runLen);
    if packed.None? {
      return false;
    }
    geometry.meta := [packed.value.runs, runLen, packed.value.palette];
    DescribedExact(geometry, m);
    chosen := true;
  }

  /** The encodings that walk again, strongest first, then replay. */
  method ChooseSecond(b: GeometryBuilder, geometry: Geometry, m: seq<Measure>)
    requires Undirected(b, geometry, m) && !KeepsShape(m)
    modifies geometry, geometry.storage
    ensures geometry.Valid() && Exact(geometry, m)
  {
    hide FixedKept, AffineKept, Periods, Ended, RankedKept, FactorKept, ShapeWalked, Exact, Describes, RunCount, Start, KeepsShape, SignaturesTell;
    ghost var w := WidthsOf(m);
    var chosen;
    if b.sawNested && |m| > RANKED_CAPACITY && !b.shape.attempted {
      chosen := ChooseShape(geometry, m);
      if chosen {
        return;
      }
    }
    chosen := ChoosePeriodic(b.runs, geometry, m, b.ended);
    if chosen {
      return;
    }
    if b.ranked {
      RankedFits(geometry.storage[..], b.palette, w);
    }
    if b.runs.count <= INTERVAL_CAPACITY {
      chosen := ChooseIntervals(geometry, m);
      if chosen {
        return;
      }
    }
    if !b.factor.candidate && !b.ranked {
      chosen := ChooseFactorized(geometry, m);
      if chosen {
        return;
      }
    }
    if b.ranked {
      RankedChosen(geometry, b.palette, m);
      geometry.meta := geometry.meta[0 := |b.palette.widths|][1 := |m|];
      RankedExact(geometry, m);
      return;
    }
    if !b.runs.commonFailed && b.runs.count <= PACKED_RUN_CAPACITY && !b.palette.failed {
      chosen := ChoosePacked(geometry, m, b.runs.common);
      if chosen {
        return;
      }
    }
    geometry.Reset(Replay);
    ReplayExact(geometry, m);
  }

  lemma RankedChosen(geometry: Geometry, palette: Palette, m: seq<Measure>)
    requires geometry.Valid() && ValidPalette(palette)
    requires RankedKept(geometry.storage[..], palette.widths, WidthsOf(m), Starts(WidthsOf(m)), RANKED_BLOCK, |m|)
    ensures DescribesRanked(geometry.storage[..], WidthsOf(m)) && |palette.widths| <= PALETTE_CAPACITY
  {
    hide RankedKept;
    RankedDescribes(geometry.storage[..], palette.widths, WidthsOf(m));
  }

  lemma RankedExact(geometry: Geometry, m: seq<Measure>)
    requires geometry.Valid() && geometry.kind == Ranked && DescribesRanked(geometry.storage[..], WidthsOf(m)) && !KeepsShape(m)
    ensures Exact(geometry, m)
  {
  }
}
