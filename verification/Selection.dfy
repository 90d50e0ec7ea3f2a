/** Fragmented physical selections: chunks of an unsorted, overlapping set of field
    ranges, found lazily without sorting or storing anything. */
module Selection {
  import opened Base

  /** A selection expression resolved against one view: absent fields select nothing. */
  datatype FieldExpr = FieldPath(range: Option<Range>) | FieldUnion(left: FieldExpr, right: FieldExpr)

  /** The ranges an expression visits, in order. */
  function Visited(e: FieldExpr): seq<Range> {
    match e
    case FieldPath(range) => if range.Some? then [range.value] else []
    case FieldUnion(left, right) => Visited(left) + Visited(right)
  }

  /** Non-empty ranges inside the view. */
  predicate Admitted(range: Range, len: nat) {
    range.start < range.end && range.end <= len
  }

  predicate Inside(range: Range, i: nat) {
    range.start <= i < range.end
  }

  /** Whether some admitted range contains byte `i`. */
  ghost predicate Covered(ranges: seq<Range>, len: nat, i: nat) {
    exists k :: 0 <= k < |ranges| && Admitted(ranges[k], len) && Inside(ranges[k], i)
  }

  /** Whether byte `i` belongs to one of the named fields: an absent field has no bytes
      and a union those of either operand. */
  ghost predicate Names(e: FieldExpr, len: nat, i: nat) {
    match e
    case FieldPath(range) => range.Some? && Admitted(range.value, len) && Inside(range.value, i)
    case FieldUnion(left, right) => Names(left, len, i) || Names(right, len, i)
  }

  /** Which bytes a selection keeps. */
  ghost function Mask(e: FieldExpr, len: nat, including: bool): (mask: seq<bool>)
    ensures |mask| == len
  {
    seq(len, i requires 0 <= i < len => Names(e, len, i) == including)
  }

  /** The visited ranges cover exactly the named bytes. */
  lemma {:induction false} VisitedNames(e: FieldExpr, len: nat, i: nat)
    ensures Covered(Visited(e), len, i) <==> Names(e, len, i)
  {
    match e
    case FieldPath(range) =>
      if range.Some? {
        assert Visited(e)[0] == range.value;
      }
    case FieldUnion(left, right) =>
      VisitedNames(left, len, i);
      VisitedNames(right, len, i);
      CoveredJoin(Visited(left), Visited(right), len, i);
  }

  lemma CoveredJoin(a: seq<Range>, b: seq<Range>, len: nat, i: nat)
    ensures Covered(a + b, len, i) <==> Covered(a, len, i) || Covered(b, len, i)
  {
    if Covered(a, len, i) {
      var k :| 0 <= k < |a| && Admitted(a[k], len) && Inside(a[k], i);
      assert (a + b)[k] == a[k];
    }
    if Covered(b, len, i) {
      var k :| 0 <= k < |b| && Admitted(b[k], len) && Inside(b[k], i);
      assert (a + b)[|a| + k] == b[k];
    }
  }

  // ----- maximal runs -----

  /** First position at or after `at` holding `value`, or the end. */
  function First(mask: seq<bool>, at: nat, value: bool): (i: nat)
    requires at <= |mask|
    ensures at <= i <= |mask|
    ensures forall k :: at <= k < i ==> mask[k] != value
    ensures i < |mask| ==> mask[i] == value
    decreases |mask| - at
  {
    if at == |mask| || mask[at] == value then at else First(mask, at + 1, value)
  }

  lemma FirstIs(mask: seq<bool>, at: nat, value: bool, i: nat)
    requires at <= i <= |mask|
    requires forall k :: at <= k < i ==> mask[k] != value
    requires i < |mask| ==> mask[i] == value
    ensures i == First(mask, at, value)
  {
  }

  /** Maximal runs of kept bytes at or after `at`. */
  function Runs(mask: seq<bool>, at: nat): seq<Range>
    requires at <= |mask|
    decreases |mask| - at
  {
    var start := First(mask, at, true);
    if start == |mask| then [] else
      var end := First(mask, start, false);
      [Range(start, end)] + Runs(mask, end)
  }

  /** Increasing non-empty ranges separated by real gaps, at or after `from`. */
  ghost predicate Separated(runs: seq<Range>, from: nat, len: nat)
    decreases |runs|
  {
    runs != [] ==>
      && from <= runs[0].start < runs[0].end <= len
      && Separated(runs[1..], runs[0].end + 1, len)
  }

  ghost predicate Holds(runs: seq<Range>, i: nat) {
    exists k :: 0 <= k < |runs| && Inside(runs[k], i)
  }

  /** `runs` is the canonical form of the bytes kept at or after `at`. */
  ghost predicate Canonical(runs: seq<Range>, mask: seq<bool>, at: nat) {
    && Separated(runs, at, |mask|)
    && forall i :: at <= i < |mask| ==> (Holds(runs, i) <==> mask[i])
  }

  lemma SeparatedBound(runs: seq<Range>, from: nat, len: nat, i: nat)
    requires Separated(runs, from, len) && Holds(runs, i)
    ensures from <= i < len
  {
    var k :| 0 <= k < |runs| && Inside(runs[k], i);
    if k > 0 {
      assert runs[1..][k - 1] == runs[k];
      SeparatedBound(runs[1..], runs[0].end + 1, len, i);
    }
  }

  lemma HoldsCons(run: Range, runs: seq<Range>, i: nat)
    ensures Holds([run] + runs, i) <==> Inside(run, i) || Holds(runs, i)
  {
    var all := [run] + runs;
    if Holds(runs, i) {
      var k :| 0 <= k < |runs| && Inside(runs[k], i);
      assert all[k + 1] == runs[k];
    }
    if Inside(run, i) {
      assert all[0] == run;
    }
  }

  lemma {:induction false} RunsCanonical(mask: seq<bool>, at: nat)
    requires at <= |mask|
    ensures Canonical(Runs(mask, at), mask, at)
    decreases |mask| - at
  {
    var start := First(mask, at, true);
    if start < |mask| {
      var end := First(mask, start, false);
      var rest := Runs(mask, end);
      RunsCanonical(mask, end);
      SeparatedLater(rest, mask, end);
      assert ([Range(start, end)] + rest)[1..] == rest;
      forall i | at <= i < |mask| ensures Holds(Runs(mask, at), i) <==> mask[i] {
        HoldsCons(Range(start, end), rest, i);
        if i < end && Holds(rest, i) {
          SeparatedBound(rest, end, |mask|, i);
        }
      }
    }
  }

  /** Runs that start after a byte that is not kept start beyond it. */
  lemma SeparatedLater(runs: seq<Range>, mask: seq<bool>, at: nat)
    requires Canonical(runs, mask, at) && (at < |mask| ==> !mask[at])
    ensures Separated(runs, at + 1, |mask|)
  {
    if runs != [] {
      HeadHeld(runs, mask, at);
    }
  }

  lemma {:induction false} CanonicalUnique(a: seq<Range>, b: seq<Range>, mask: seq<bool>, at: nat)
    requires Canonical(a, mask, at) && Canonical(b, mask, at) && at <= |mask|
    ensures a == b
    decreases |a| + |b|
  {
    if a == [] || b == [] {
      if a != [] { HeadHeld(a, mask, at); }
      if b != [] { HeadHeld(b, mask, at); }
    } else {
      HeadIsRun(a, mask, at);
      HeadIsRun(b, mask, at);
      CanonicalTail(a, mask, at);
      CanonicalTail(b, mask, at);
      CanonicalUnique(a[1..], b[1..], mask, a[0].end);
      assert a == [a[0]] + a[1..] && b == [b[0]] + b[1..];
    }
  }

  lemma HeadHeld(runs: seq<Range>, mask: seq<bool>, at: nat)
    requires Canonical(runs, mask, at) && runs != []
    ensures at <= runs[0].start < |mask| && mask[runs[0].start]
  {
    assert Inside(runs[0], runs[0].start);
    assert Holds(runs, runs[0].start);
  }

  lemma SplitHead(runs: seq<Range>, i: nat)
    requires runs != []
    ensures Holds(runs, i) <==> Inside(runs[0], i) || Holds(runs[1..], i)
  {
    HoldsCons(runs[0], runs[1..], i);
    assert [runs[0]] + runs[1..] == runs;
  }

  /** The first canonical run is the first maximal run. */
  lemma HeadIsRun(runs: seq<Range>, mask: seq<bool>, at: nat)
    requires Canonical(runs, mask, at) && runs != []
    ensures runs[0].start == First(mask, at, true) && runs[0].end == First(mask, runs[0].start, false)
  {
    var start, end := runs[0].start, runs[0].end;
    forall i | at <= i <= end && i < |mask| ensures mask[i] <==> start <= i < end {
      SplitHead(runs, i);
      if Holds(runs[1..], i) {
        SeparatedBound(runs[1..], end + 1, |mask|, i);
      }
    }
    FirstIs(mask, at, true, start);
    FirstIs(mask, start, false, end);
  }

  lemma CanonicalTail(runs: seq<Range>, mask: seq<bool>, at: nat)
    requires Canonical(runs, mask, at) && runs != []
    ensures Canonical(runs[1..], mask, runs[0].end)
  {
    SeparatedEarlier(runs[1..], runs[0].end + 1, runs[0].end, |mask|);
    forall i | runs[0].end <= i < |mask| ensures Holds(runs[1..], i) <==> mask[i] {
      SplitHead(runs, i);
    }
  }

  lemma SeparatedEarlier(runs: seq<Range>, from: nat, earlier: nat, len: nat)
    requires Separated(runs, from, len) && earlier <= from
    ensures Separated(runs, earlier, len)
  {
  }

  // ----- the kept bytes -----

  /** The kept bytes at or after `at`, in physical order. */
  function Kept(input: seq<byte>, mask: seq<bool>, at: nat): seq<byte>
    requires at <= |mask| == |input|
    decreases |mask| - at
  {
    if at == |mask| then []
    else if mask[at] then [input[at]] + Kept(input, mask, at + 1)
    else Kept(input, mask, at + 1)
  }

  function Joined(input: seq<byte>, runs: seq<Range>): seq<byte>
    requires Separated(runs, 0, |input|)
  {
    if runs == [] then [] else
      SeparatedEarlier(runs[1..], runs[0].end + 1, 0, |input|);
      input[runs[0].start..runs[0].end] + Joined(input, runs[1..])
  }

  function TotalLen(runs: seq<Range>): int {
    if runs == [] then 0 else runs[0].end - runs[0].start + TotalLen(runs[1..])
  }

  lemma {:induction false} KeptNone(input: seq<byte>, mask: seq<bool>, from: nat, to: nat)
    requires from <= to <= |mask| == |input| && forall i :: from <= i < to ==> !mask[i]
    ensures Kept(input, mask, from) == Kept(input, mask, to)
    decreases |mask| - from
  {
    if from < to {
      KeptNone(input, mask, from + 1, to);
    }
  }

  lemma {:induction false} KeptAll(input: seq<byte>, mask: seq<bool>, from: nat, to: nat)
    requires from <= to <= |mask| == |input| && forall i :: from <= i < to ==> mask[i]
    ensures Kept(input, mask, from) == input[from..to] + Kept(input, mask, to)
    decreases |mask| - from
  {
    if from < to {
      KeptAll(input, mask, from + 1, to);
      Prepend(input, from, to, Kept(input, mask, to));
    }
  }

  lemma Prepend(input: seq<byte>, from: nat, to: nat, tail: seq<byte>)
    requires from < to <= |input|
    ensures [input[from]] + (input[from + 1..to] + tail) == input[from..to] + tail
  {
  }

  /** The runs, joined, are the kept bytes: the input filtered by membership. */
  lemma {:induction false} RunsKeep(input: seq<byte>, mask: seq<bool>, at: nat)
    requires at <= |mask| == |input|
    ensures Separated(Runs(mask, at), 0, |input|)
    ensures Joined(input, Runs(mask, at)) == Kept(input, mask, at)
    ensures TotalLen(Runs(mask, at)) == |Kept(input, mask, at)|
    decreases |mask| - at
  {
    var start := First(mask, at, true);
    RunsCanonical(mask, at);
    SeparatedEarlier(Runs(mask, at), at, 0, |mask|);
    KeptNone(input, mask, at, start);
    if start < |mask| {
      var end := First(mask, start, false);
      RunsKeep(input, mask, end);
      KeptAll(input, mask, start, end);
      assert Runs(mask, at)[1..] == Runs(mask, end);
    }
  }

  lemma {:induction false} KeptPartition(input: seq<byte>, a: seq<bool>, b: seq<bool>, at: nat)
    requires at <= |a| == |b| == |input| && forall i :: 0 <= i < |a| ==> a[i] != b[i]
    ensures |Kept(input, a, at)| + |Kept(input, b, at)| == |input| - at
    decreases |a| - at
  {
    if at < |a| {
      KeptPartition(input, a, b, at + 1);
    }
  }

  /** `include(e)` and `exclude(e)` keep each byte exactly once, and their lengths add
      up to the length of the input. */
  lemma Partition(e: FieldExpr, input: seq<byte>)
    ensures var kept, left := Runs(Mask(e, |input|, true), 0), Runs(Mask(e, |input|, false), 0);
            && (forall i :: 0 <= i < |input| ==> (Holds(kept, i) <==> !Holds(left, i)))
            && TotalLen(kept) + TotalLen(left) == |input|
  {
    var a, b := Mask(e, |input|, true), Mask(e, |input|, false);
    RunsCanonical(a, 0);
    RunsCanonical(b, 0);
    RunsKeep(input, a, 0);
    RunsKeep(input, b, 0);
    KeptPartition(input, a, b, 0);
  }

  /** The bytes of the chunks of `include(e)` or `exclude(e)`. */
  ghost predicate Yields(e: FieldExpr, len: nat, including: bool, i: nat) {
    Holds(Runs(Mask(e, len, including), 0), i)
  }

  lemma YieldsMask(e: FieldExpr, len: nat, including: bool, i: nat)
    ensures Yields(e, len, including, i) <==> i < len && Mask(e, len, including)[i]
  {
    var mask := Mask(e, len, including);
    RunsCanonical(mask, 0);
    if Holds(Runs(mask, 0), i) {
      SeparatedBound(Runs(mask, 0), 0, len, i);
    }
  }

  /** A path includes exactly the bytes of its range when that range is not empty and
      ends within the view, and excludes all others; an absent field names no bytes. */
  lemma PathChunks(range: Option<Range>, len: nat, i: nat)
    ensures Yields(FieldPath(range), len, true, i) <==>
              range.Some? && range.value.start <= i < range.value.end <= len
    ensures Yields(FieldPath(range), len, false, i) <==>
              i < len && !(range.Some? && range.value.start <= i < range.value.end <= len)
  {
    YieldsMask(FieldPath(range), len, true, i);
    YieldsMask(FieldPath(range), len, false, i);
  }

  /** A union includes what either operand includes and excludes what both exclude. */
  lemma UnionChunks(left: FieldExpr, right: FieldExpr, len: nat, i: nat)
    ensures Yields(FieldUnion(left, right), len, true, i) <==>
              Yields(left, len, true, i) || Yields(right, len, true, i)
    ensures Yields(FieldUnion(left, right), len, false, i) <==>
              Yields(left, len, false, i) && Yields(right, len, false, i)
  {
    hide Yields;
    YieldsMask(left, len, true, i);
    YieldsMask(right, len, true, i);
    YieldsMask(FieldUnion(left, right), len, true, i);
    YieldsMask(left, len, false, i);
    YieldsMask(right, len, false, i);
    YieldsMask(FieldUnion(left, right), len, false, i);
  }

  /** The chunks are the only canonical form of the selected set, so expressions that
      select the same bytes, in any order and however often, have the same chunks. */
  lemma SameSelection(e: FieldExpr, f: FieldExpr, len: nat, including: bool)
    requires forall i :: 0 <= i < len ==> (Names(e, len, i) <==> Names(f, len, i))
    ensures Runs(Mask(e, len, including), 0) == Runs(Mask(f, len, including), 0)
  {
    assert Mask(e, len, including) == Mask(f, len, including);
  }

  // ----- the iterators -----

  /** A cursor over the input that yields one maximal run at a time. */
  class SelectionChunks {
    const input: seq<byte>
    const expression: FieldExpr
    const including: bool
    var cursor: nat
    var done: bool

    ghost predicate Valid()
      reads this
    {
      cursor <= |input| <= USIZE_MAX
    }

    ghost function Selected(): (mask: seq<bool>)
      ensures |mask| == |input|
    {
      Mask(expression, |input|, including)
    }

    /** Whether a byte is selected shows in the ranges visited. */
    lemma SelectedIs()
      ensures forall i :: 0 <= i < |input| ==>
                Selected()[i] == (Covered(Visited(expression), |input|, i) == including)
    {
      forall i | 0 <= i < |input|
        ensures Selected()[i] == (Covered(Visited(expression), |input|, i) == including)
      {
        VisitedNames(expression, |input|, i);
      }
    }

    /** The chunks still to come. */
    ghost function Remaining(): (runs: seq<Range>)
      requires Valid()
      reads this
      ensures Separated(runs, 0, |input|)
    {
      RunsKeep(input, Selected(), cursor);
      if done then [] else Runs(Selected(), cursor)
    }

    constructor (bytes: seq<byte>, e: FieldExpr, mode: bool)
      requires |bytes| <= USIZE_MAX
      ensures input == bytes && expression == e && including == mode
      ensures Valid() && Remaining() == Runs(Mask(e, |bytes|, mode), 0)
    {
      input, expression, including := bytes, e, mode;
      cursor, done := 0, false;
    }

    /** The smallest selected position at or after the cursor. */
    method FirstSelected(ranges: seq<Range>) returns (start: nat)
      requires Valid() && ranges == Visited(expression)
      ensures start == USIZE_MAX ==>
                forall i :: cursor <= i < |input| ==> !Covered(ranges, |input|, i)
      ensures start != USIZE_MAX ==>
                && cursor <= start < |input| && Covered(ranges, |input|, start)
                && forall i :: cursor <= i < start ==> !Covered(ranges, |input|, i)
    {
      start := USIZE_MAX;
      for k := 0 to |ranges|
        invariant start != USIZE_MAX ==> cursor <= start < |input| && Covered(ranges, |input|, start)
        invariant start <= USIZE_MAX
        invariant forall j :: 0 <= j < k && Admitted(ranges[j], |input|) && ranges[j].end > cursor ==>
                    start <= Max(ranges[j].start, cursor)
      {
        var range := ranges[k];
        if Admitted(range, |input|) && range.end > cursor {
          start := Min(start, Max(range.start, cursor));
          assert Inside(range, Max(range.start, cursor));
        }
      }
    }

    /** One pass of the fixpoint: `end` grows by every range that touches it and ends
        after `base`. */
    method Grow(ranges: seq<Range>, base: nat, from: nat) returns (end: nat)
      requires base <= from <= |input|
      requires forall i :: base <= i < from ==> Covered(ranges, |input|, i)
      ensures from <= end <= |input|
      ensures forall i :: base <= i < end ==> Covered(ranges, |input|, i)
      ensures end == from < |input| ==> !Covered(ranges, |input|, from)
    {
      end := from;
      for k := 0 to |ranges|
        invariant from <= end <= |input|
        invariant forall i :: base <= i < end ==> Covered(ranges, |input|, i)
        invariant forall j :: 0 <= j < k && Admitted(ranges[j], |input|) && ranges[j].start <= from && ranges[j].end > base ==>
                    ranges[j].end <= end
      {
        var range := ranges[k];
        if Admitted(range, |input|) && range.start <= end && range.end > base {
          forall i | end <= i < range.end ensures Covered(ranges, |input|, i) {
            assert Inside(ranges[k], i);
          }
          end := Max(end, range.end);
        }
      }
    }

    /** End of the maximal covered run around `base`. */
    method Fixpoint(ranges: seq<Range>, base: nat) returns (end: nat)
      requires base <= |input|
      ensures base <= end <= |input|
      ensures forall i :: base <= i < end ==> Covered(ranges, |input|, i)
      ensures end < |input| ==> !Covered(ranges, |input|, end)
    {
      end := base;
      while true
        invariant base <= end <= |input|
        invariant forall i :: base <= i < end ==> Covered(ranges, |input|, i)
        decreases |input| - end
      {
        var previous := end;
        end := Grow(ranges, base, end);
        if end == previous {
          return;
        }
      }
    }

    method NextIncluded() returns (r: Option<Range>)
      requires Valid() && including
      modifies this`cursor
      ensures Valid()
      ensures var runs := Runs(Selected(), old(cursor));
              if runs == [] then r == None && cursor == old(cursor)
              else r == Some(runs[0]) && cursor == runs[0].end
    {
      hide Mask, Selected;
      SelectedIs();
      var ranges := Visited(expression);
      var start := FirstSelected(ranges);
      if start == USIZE_MAX {
        FirstIs(Selected(), cursor, true, |input|);
        return None;
      }
      FirstIs(Selected(), cursor, true, start);
      var end := Fixpoint(ranges, start);
      FirstIs(Selected(), start, false, end);
      cursor := end;
      r := Some(Range(start, end));
    }

    method NextExcluded() returns (r: Option<Range>)
      requires Valid() && !including
      modifies this`cursor
      ensures Valid()
      ensures var runs := Runs(Selected(), old(cursor));
              if runs == [] then r == None && Runs(Selected(), cursor) == []
              else r == Some(runs[0]) && cursor == runs[0].end
    {
      hide Mask, Selected;
      SelectedIs();
      var ranges := Visited(expression);
      while true
        invariant Valid() && First(Selected(), old(cursor), true) == First(Selected(), cursor, true)
        decreases |input| - cursor
      {
        if cursor >= |input| {
          return None;
        }
        var coveredEnd := Fixpoint(ranges, cursor);
        if coveredEnd > cursor {
          FirstSkip(Selected(), cursor, coveredEnd, true);
          cursor := coveredEnd;
          continue;
        }
        var nextStart := NextCovered(ranges);
        FirstIs(Selected(), cursor, true, cursor);
        FirstIs(Selected(), cursor, false, nextStart);
        r := Some(Range(cursor, nextStart));
        cursor := nextStart;
        return;
      }
    }

    /** The next covered position after an uncovered cursor, or the end. */
    method NextCovered(ranges: seq<Range>) returns (next: nat)
      requires Valid() && cursor < |input| && !Covered(ranges, |input|, cursor)
      ensures cursor < next <= |input|
      ensures forall i :: cursor <= i < next ==> !Covered(ranges, |input|, i)
      ensures next < |input| ==> Covered(ranges, |input|, next)
    {
      next := |input|;
      for k := 0 to |ranges|
        invariant cursor < next <= |input|
        invariant next < |input| ==> Covered(ranges, |input|, next)
        invariant forall j :: 0 <= j < k && Admitted(ranges[j], |input|) && ranges[j].end > cursor ==>
                    next <= ranges[j].start
      {
        var range := ranges[k];
        assert Admitted(range, |input|) ==> !Inside(range, cursor);
        if Admitted(range, |input|) && range.start > cursor {
          next := Min(next, range.start);
          assert Inside(ranges[k], range.start);
        }
      }
    }

    /** The next chunk: always the first maximal run not yielded yet. */
    method Next() returns (r: Option<seq<byte>>)
      requires Valid()
      modifies this
      ensures Valid()
      ensures var runs := old(Remaining());
              if runs == [] then r == None && Remaining() == []
              else Admitted(runs[0], |input|) && r == Some(input[runs[0].start..runs[0].end]) && Remaining() == runs[1..]
    {
      if done {
        return None;
      }
      var range: Option<Range>;
      if including {
        range := NextIncluded();
      } else {
        range := NextExcluded();
      }
      if range.None? {
        done := true;
        return None;
      }
      r := Some(input[range.value.start..range.value.end]);
    }
  }

  lemma FirstSkip(mask: seq<bool>, at: nat, later: nat, value: bool)
    requires at <= later <= |mask| && forall k :: at <= k < later ==> mask[k] != value
    ensures First(mask, at, value) == First(mask, later, value)
  {
    FirstIs(mask, at, value, First(mask, later, value));
  }

  /** Iterator over the bytes of a fragmented selection. */
  class SelectionBytes {
    const chunks: SelectionChunks
    var current: seq<byte>
    var offset: nat

    ghost predicate Valid()
      reads this, chunks
    {
      chunks.Valid() && offset <= |current|
    }

    /** The bytes still to come. */
    ghost function Remaining(): seq<byte>
      requires Valid()
      reads this, chunks
    {
      current[offset..] + Joined(chunks.input, chunks.Remaining())
    }

    constructor (selection: SelectionChunks)
      requires selection.Valid() && selection.cursor == 0 && !selection.done
      ensures chunks == selection && Valid()
      ensures Remaining() == Kept(selection.input, selection.Selected(), 0)
    {
      chunks, current, offset := selection, [], 0;
      RunsKeep(selection.input, selection.Selected(), 0);
    }

    method Next() returns (r: Option<byte>)
      requires Valid()
      modifies this, chunks
      ensures Valid()
      ensures var left := old(Remaining());
              if left == [] then r == None && Remaining() == []
              else r == Some(left[0]) && Remaining() == left[1..]
    {
      while true
        invariant Valid() && Remaining() == old(Remaining())
        decreases |chunks.Remaining()|
      {
        if offset < |current| {
          r := Some(current[offset]);
          offset := offset + 1;
          return;
        }
        var chunk := chunks.Next();
        if chunk.None? {
          return None;
        }
        current, offset := chunk.value, 0;
      }
    }
  }

  /** Adds up the chunk lengths. */
  method Len(e: FieldExpr, input: seq<byte>, including: bool) returns (n: nat)
    requires |input| <= USIZE_MAX
    ensures n == |Kept(input, Mask(e, |input|, including), 0)|
  {
    hide Runs, Kept, Mask, Joined, SelectionChunks.Remaining, Separated;
    var chunks := new SelectionChunks(input, e, including);
    RunsKeep(input, Mask(e, |input|, including), 0);
    ghost var total := |Kept(input, Mask(e, |input|, including), 0)|;
    n := 0;
    while true
      invariant fresh(chunks) && chunks.Valid() && n + TotalLen(chunks.Remaining()) == total
      decreases |chunks.Remaining()|
    {
      var chunk := chunks.Next();
      if chunk.None? {
        return;
      }
      n := n + |chunk.value|;
    }
  }
}
