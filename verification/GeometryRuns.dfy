/** What one walk over the items keeps about their widths: an arithmetic progression,
    and maximal runs of equal widths with the periods they may repeat by. */
module GeometryRuns {
  import opened Arith
  import opened Base
  import opened Widths
  import opened GeometryStorage

  const U16_LIMIT: nat := 0x1_0000
  const I32_LIMIT: int := 0x8000_0000

  // ----- arithmetic progressions -----

  datatype Affine = Affine(base: nat, slope: int, failed: bool)

  /** Item `n` has width `width`. */
  function AffineStep(a: Affine, n: nat, width: nat): Affine {
    if n == 0 then a.(base := width)
    else if n == 1 then
      if -I32_LIMIT <= width - a.base < I32_LIMIT then a.(slope := width - a.base) else a.(failed := true)
    else if !a.failed then a.(failed := a.base + a.slope * n != width)
    else a
  }

  function FirstStep(w: seq<nat>): int
    requires |w| >= 2
  {
    w[1] as int - w[0]
  }

  /** Item `i` lies on the line through the first two. */
  predicate OnLine(w: seq<nat>, i: nat)
    requires 2 <= |w| && i < |w|
  {
    w[i] == w[0] + FirstStep(w) * i
  }

  /** The first `n` widths are an arithmetic progression with a 32-bit step. */
  ghost predicate Line(w: seq<nat>, n: nat)
    requires 2 <= n <= |w|
  {
    -I32_LIMIT <= FirstStep(w) < I32_LIMIT && forall i: nat :: i < n ==> OnLine(w, i)
  }

  /** What holds after `n` items. */
  ghost predicate AffineKept(a: Affine, w: seq<nat>, n: nat)
    requires n <= |w|
  {
    && -I32_LIMIT <= a.slope < I32_LIMIT
    && (n < 2 ==> !a.failed)
    && (n > 0 ==> a.base == w[0])
    && (n >= 2 ==> (!a.failed <==> Line(w, n)) && (!a.failed ==> a.slope == FirstStep(w)))
  }

  lemma AffineKeeps(a: Affine, w: seq<nat>, n: nat)
    requires n < |w| && AffineKept(a, w, n)
    ensures AffineKept(AffineStep(a, n, w[n]), w, n + 1)
  {
    if n == 1 {
      assert OnLine(w, 0) && OnLine(w, 1);
    }
    if n >= 2 {
      LineNext(w, n);
    }
  }

  lemma LineNext(w: seq<nat>, n: nat)
    requires 2 <= n < |w|
    ensures Line(w, n + 1) <==> Line(w, n) && OnLine(w, n)
  {
    if Line(w, n + 1) {
      forall i: nat | i < n ensures OnLine(w, i) {
      }
      assert OnLine(w, n);
    }
  }

  // ----- one width -----

  /** The first `n` widths are equal. */
  ghost predicate Uniform(w: seq<nat>, n: nat)
    requires n <= |w|
  {
    forall i :: 0 <= i < n ==> w[i] == w[0]
  }

  function FixedStep(fixed: Option<nat>, width: nat): Option<nat> {
    if fixed.None? || fixed.value == width then Some(width) else Some(USIZE_MAX)
  }

  /** The one width of the first `n` items; `USIZE_MAX` stands for widths that differ. */
  ghost predicate FixedKept(fixed: Option<nat>, w: seq<nat>, n: nat)
    requires n <= |w|
  {
    && (fixed.None? <==> n == 0)
    && (n > 0 ==> fixed.value == if Uniform(w, n) then w[0] else USIZE_MAX)
  }

  lemma FixedKeeps(fixed: Option<nat>, w: seq<nat>, n: nat)
    requires n < |w| && FixedKept(fixed, w, n) && w[n] < USIZE_MAX && (n > 0 ==> w[0] < USIZE_MAX)
    ensures FixedKept(FixedStep(fixed, w[n]), w, n + 1)
  {
    assert Uniform(w, n + 1) <==> Uniform(w, n) && w[n] == w[0];
  }

  // ----- runs -----

  /** The current run, how many ended, their common length, and the periods by which the
      ended runs may repeat, one flag a period. `periods` keeps the first 64 widths. */
  datatype Runs = Runs(started: bool, width: nat, len: nat, common: nat, count: nat,
                       periodicFailed: bool, commonFailed: bool, candidates: seq<bool>, periods: seq<nat>)

  function NoRuns(): Runs {
    Runs(false, 0, 0, 0, 0, false, false, seq(PERIOD_CAPACITY, _ => true), Zeros(PERIOD_CAPACITY))
  }

  predicate Sized(r: Runs) {
    |r.periods| == |r.candidates| == PERIOD_CAPACITY
  }

  /** Drops the periods that the width of run `index` contradicts. */
  function Surviving(candidates: seq<bool>, periods: seq<nat>, index: nat, width: nat): (s: seq<bool>)
    requires |periods| == |candidates| == PERIOD_CAPACITY
    ensures |s| == PERIOD_CAPACITY
  {
    seq(PERIOD_CAPACITY, i requires 0 <= i < PERIOD_CAPACITY =>
      candidates[i] && (i + 1 > index || width == periods[index % (i + 1)]))
  }

  /** The current run ends. A walk that tries recursive shapes keeps no run widths. */
  function FinishRun(r: Runs, final: bool, shaped: bool): Runs
    requires Sized(r)
  {
    if r.width >= U16_LIMIT then r.(periodicFailed := true, commonFailed := true, count := r.count + 1)
    else
      var broken := r.common != 0 && ((!final && r.len != r.common) || (final && r.len > r.common));
      var common := if r.common == 0 then r.len else r.common;
      var periods := if !shaped && r.count < PERIOD_CAPACITY then r.periods[r.count := r.width] else r.periods;
      var failed := r.periodicFailed || broken;
      var candidates := if failed then r.candidates else Surviving(r.candidates, periods, r.count, r.width);
      r.(common := common, periods := periods, candidates := candidates, count := r.count + 1,
         periodicFailed := failed || !(exists i :: 0 <= i < |candidates| && candidates[i]),
         commonFailed := r.commonFailed || broken)
  }

  function PushRun(r: Runs, width: nat, shaped: bool): Runs
    requires Sized(r)
  {
    if !r.started then r.(started := true, width := width, len := 1)
    else if r.width == width then r.(len := Min(r.len + 1, U32_MAX))
    else FinishRun(r, false, shaped).(width := width, len := 1)
  }

  function CompleteRuns(r: Runs, shaped: bool): Runs
    requires Sized(r)
  {
    if r.started then FinishRun(r, true, shaped).(started := false) else r
  }

  /** Number of maximal runs. */
  function RunCount(w: seq<nat>): nat {
    if w == [] then 0
    else RunCount(w[..|w| - 1]) + (if |w| == 1 || w[|w| - 1] != w[|w| - 2] then 1 else 0)
  }

  /** `ended` are the widths of the runs that ended, each `common` items long. */
  ghost predicate Ended(w: seq<nat>, ended: seq<nat>, common: nat, n: nat)
    requires n <= |w|
  {
    && (ended != [] ==> common > 0)
    && (forall i: nat :: i < n ==> InRun(w, ended, common, i))
  }

  ghost predicate InRun(w: seq<nat>, ended: seq<nat>, common: nat, i: nat)
    requires i < |w|
  {
    common > 0 && Quot(i, common) < |ended| && w[i] == ended[Quot(i, common)]
  }

  /** Run `k` repeats with period `i + 1`. */
  ghost predicate Repeats(periods: seq<nat>, ended: seq<nat>, i: nat, k: nat)
    requires |periods| == PERIOD_CAPACITY && i < PERIOD_CAPACITY && k < |ended|
  {
    k > i ==> ended[k] == periods[k % (i + 1)]
  }

  ghost predicate Periods(r: Runs, ended: seq<nat>) {
    && Sized(r)
    && (!r.periodicFailed ==>
          && !r.commonFailed && (exists i :: 0 <= i < PERIOD_CAPACITY && r.candidates[i])
          && (forall k :: 0 <= k < |ended| ==> ended[k] < U16_LIMIT && (k < PERIOD_CAPACITY ==> r.periods[k] == ended[k]))
          && (forall i, k :: 0 <= i < PERIOD_CAPACITY && r.candidates[i] && 0 <= k < |ended| ==>
                Repeats(r.periods, ended, i, k)))
  }

  /** What holds while walking, after `n` items. */
  ghost predicate Walking(r: Runs, w: seq<nat>, n: nat, ended: seq<nat>)
    requires n <= |w|
  {
    && Periods(r, ended) && r.count == |ended| && r.started == (n > 0)
    && r.len <= n && r.common <= n && (n > 0 ==> r.len > 0)
    && (n > 0 ==> RunCount(w[..n]) == r.count + 1)
    && (forall i :: n - r.len <= i < n ==> w[i] == r.width)
    && (n == 0 ==> r == NoRuns().(periodicFailed := r.periodicFailed) && ended == [])
    && (!r.commonFailed ==> n - r.len == Times(|ended|, r.common) && Ended(w, ended, r.common, n - r.len))
  }

  /** What holds once the last run ended. */
  ghost predicate Walked(r: Runs, w: seq<nat>, ended: seq<nat>) {
    && Periods(r, ended) && r.count == |ended| == RunCount(w) && r.common <= |w|
    && (!r.commonFailed ==> Ended(w, ended, r.common, |w|))
  }

  lemma RunCountStep(w: seq<nat>, n: nat)
    requires n < |w|
    ensures RunCount(w[..n + 1]) == RunCount(w[..n]) + (if n == 0 || w[n] != w[n - 1] then 1 else 0)
  {
    assert w[..n + 1][..n] == w[..n];
  }

  /** A run that ends extends what was ended. */
  lemma EndedMore(w: seq<nat>, ended: seq<nat>, common: nat, n: nat, len: nat, width: nat)
    requires n <= |w| && 0 < len <= common && n == Times(|ended|, common) && n + len <= |w|
    requires Ended(w, ended, common, n) && forall i :: n <= i < n + len ==> w[i] == width
    ensures Ended(w, ended + [width], common, n + len)
  {
    forall i: nat | i < n + len ensures InRun(w, ended + [width], common, i) {
      if i < n {
        assert InRun(w, ended, common, i);
      } else {
        DivModUnique(i, common, |ended|, i - n);
      }
    }
  }

  lemma FinishPeriods(r: Runs, ended: seq<nat>, final: bool, shaped: bool)
    requires Periods(r, ended) && r.count == |ended| && (shaped ==> r.periodicFailed)
    ensures Periods(FinishRun(r, final, shaped), ended + [r.width])
  {
    var after, more := FinishRun(r, final, shaped), ended + [r.width];
    if !after.periodicFailed {
      forall k | 0 <= k < |more| ensures more[k] < U16_LIMIT && (k < PERIOD_CAPACITY ==> after.periods[k] == more[k]) {
      }
      forall i, k | 0 <= i < PERIOD_CAPACITY && after.candidates[i] && 0 <= k < |more|
        ensures Repeats(after.periods, more, i, k)
      {
        if k < |ended| {
          assert Repeats(r.periods, ended, i, k);
          assert k % (i + 1) < i + 1;
        }
      }
    }
  }

  lemma EndedNothing(w: seq<nat>, common: nat)
    ensures Ended(w, [], common, 0) && Times(0, common) == 0
  {
  }

  /** The current run ends, `final` or followed by another. */
  lemma FinishEnds(r: Runs, w: seq<nat>, n: nat, ended: seq<nat>, final: bool, shaped: bool)
    requires n <= |w| && Walking(r, w, n, ended) && n > 0
    ensures var after := FinishRun(r, final, shaped);
            !after.commonFailed ==>
              && Ended(w, ended + [r.width], after.common, n)
              && (!final ==> n == Times(|ended| + 1, after.common))
  {
    var after := FinishRun(r, final, shaped);
    if !after.commonFailed {
      EndedNothing(w, r.common);
      EndedNothing(w, after.common);
      EndedMore(w, ended, after.common, n - r.len, r.len, r.width);
      Distribute(|ended|, 1, after.common);
    }
  }

  /** One more item keeps the walk. */
  lemma PushKeeps(r: Runs, w: seq<nat>, n: nat, ended: seq<nat>, shaped: bool) returns (more: seq<nat>)
    requires n < |w| <= U32_MAX && Walking(r, w, n, ended) && (shaped ==> r.periodicFailed)
    ensures Walking(PushRun(r, w[n], shaped), w, n + 1, more)
  {
    RunCountStep(w, n);
    if r.started && r.width != w[n] {
      more := ended + [r.width];
      FinishPeriods(r, ended, false, shaped);
      FinishEnds(r, w, n, ended, false, shaped);
    } else {
      more := ended;
      EndedNothing(w, r.common);
    }
  }

  /** The last run ends. */
  lemma CompleteKeeps(r: Runs, w: seq<nat>, ended: seq<nat>, shaped: bool) returns (all: seq<nat>)
    requires Walking(r, w, |w|, ended) && (shaped ==> r.periodicFailed)
    ensures Walked(CompleteRuns(r, shaped), w, all)
  {
    assert w[..|w|] == w;
    if r.started {
      all := ended + [r.width];
      FinishPeriods(r, ended, true, shaped);
      FinishEnds(r, w, |w|, ended, true, shaped);
    } else {
      all := ended;
    }
  }
}
