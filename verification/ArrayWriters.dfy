/** Progressive and deferred writing of counted arrays. Whatever mix of calls emitted
    the items, the region holds exactly `count` non-empty items and reads back as them. */
module ArrayWriters {
  import opened Arith
  import opened Base
  import opened Errors
  import opened Arrays
  import opened Output
  import opened Writers
  import opened OutputRuns

  datatype ArrayWriteError<+E> = SchemaFailed(source: ArrayError<E>) | OutputFailed(error: OutputError)

  // ----- items -----

  /** Deterministic leading framing: an item's extent depends on its own bytes only. */
  ghost predicate LeadingItem<E>(s: ItemSchema<E>) {
    forall x: seq<byte>, y: seq<byte>, a: nat, b: nat {:trigger s.Frame(x, a), s.Frame(y, b)} ::
      s.Frame(x, a).Ok? && s.Frame(x, a).value <= |x| && x[..s.Frame(x, a).value] <= y ==>
        s.Frame(y, b) == s.Frame(x, a)
  }

  /** What an item was framed from frames again, on its own, as all of itself. */
  ghost predicate Reframes<E>(s: ItemSchema<E>) {
    forall x: seq<byte>, a: nat {:trigger s.Frame(x, a)} ::
      s.Frame(x, a).Ok? && s.Frame(x, a).value <= |x| ==> s.Frame(x[..s.Frame(x, a).value], 0) == s.Frame(x, a)
  }

  lemma LeadingReframes<E>(s: ItemSchema<E>)
    requires LeadingItem(s)
    ensures Reframes(s)
  {
  }

  /** Deterministic leading items are blind to their suffix. */
  lemma LeadingBlind<E>(s: ItemSchema<E>)
    requires LeadingItem(s) && (s.fixed.Some? ==> FixedWidth(s, s.fixed.value))
    ensures Blind(s)
  {
    hide Traversal;
    if s.fixed.Some? {
      var width := s.fixed.value;
      forall item: seq<byte>, rest: seq<byte>, at: nat, count: nat | CleanAfter(s, width, item, rest, at, count)
        ensures SameOutcome(s, item, rest, at)
      {
        assert item <= item + rest && item[..width] == item && (item + rest)[..width] == item;
      }
    }
  }

  /** A non-empty representation of one item, all of it. */
  ghost predicate GoodItem<E>(s: ItemSchema<E>, item: seq<byte>) {
    item != [] && s.Frame(item, 0) == Ok(|item|) && s.fixed.GetOr(|item|) == |item|
  }

  ghost predicate GoodItems<E>(s: ItemSchema<E>, items: seq<seq<byte>>) {
    forall k :: 0 <= k < |items| ==> GoodItem(s, items[k])
  }

  function Concat(items: seq<seq<byte>>): seq<byte> {
    if items == [] then [] else items[0] + Concat(items[1..])
  }

  /** The items a traversal of `input` yields. */
  ghost function Pieces<E>(steps: Steps<E>, input: seq<byte>): seq<seq<byte>> {
    if steps.Yield? && steps.width <= |input|
    then [input[..steps.width]] + Pieces(steps.rest, input[steps.width..])
    else []
  }

  lemma {:induction false} ConcatAppend(items: seq<seq<byte>>, more: seq<seq<byte>>)
    ensures Concat(items + more) == Concat(items) + Concat(more)
  {
    if items == [] {
      assert items + more == more;
    } else {
      ConcatAppend(items[1..], more);
      hide Concat;
      assert items + more == [items[0]] + (items[1..] + more) && items == [items[0]] + items[1..];
      ConcatCons(items[0], items[1..] + more);
      ConcatCons(items[0], items[1..]);
      Regroup(items[0], Concat(items[1..]), Concat(more));
    }
  }

  lemma ConcatCons(item: seq<byte>, rest: seq<seq<byte>>)
    ensures Concat([item] + rest) == item + Concat(rest)
  {
    assert ([item] + rest)[1..] == rest;
  }

  lemma Regroup(a: seq<byte>, b: seq<byte>, c: seq<byte>)
    ensures a + (b + c) == a + b + c
  {
  }

  lemma ConcatOne(item: seq<byte>)
    ensures Concat([item]) == item
  {
    assert [item][1..] == [];
  }

  /** Reading concatenated items with their count gives them back, in order. */
  lemma {:induction false} ItemsReadBack<E>(s: ItemSchema<E>, items: seq<seq<byte>>, count: nat, offset: nat, index: nat, cursor: nat)
    requires LeadingItem(s) && GoodItems(s, items) && count == index + |items|
    requires offset + cursor + |Concat(items)| <= USIZE_MAX
    ensures var steps := Traversal(s, Concat(items), count, offset, index, cursor);
            Clean(steps) && Pieces(steps, Concat(items)) == items
    decreases items
  {
    hide Traversal, LeadingItem, GoodItem, Yields;
    if items == [] {
      TraversalEnds(s, [], count, offset, cursor);
    } else {
      var item, rest := items[0], Concat(items[1..]);
      assert GoodItem(s, item);
      ItemFrames(s, item, rest, offset + cursor);
      TraversalYields(s, item + rest, count, offset, index, cursor, |item|);
      ItemsReadBack(s, items[1..], count, offset, index + 1, cursor + |item|);
      assert (item + rest)[..|item|] == item && (item + rest)[|item|..] == rest;
      assert items == [item] + items[1..];
    }
  }

  /** Good items are as wide as a fixed width says. */
  lemma {:induction false} FixedItems<E>(s: ItemSchema<E>, items: seq<seq<byte>>)
    requires GoodItems(s, items)
    ensures |items| <= |Concat(items)|
    ensures s.fixed.Some? ==> |Concat(items)| == Times(s.fixed.value, |items|) && (items != [] ==> s.fixed.value > 0)
  {
    if items != [] {
      FixedItems(s, items[1..]);
      assert GoodItem(s, items[0]);
      if s.fixed.Some? {
        Distribute(1, |items| - 1, s.fixed.value);
      }
    }
  }

  /** The extent of good items does not depend on what follows them. */
  lemma {:induction false} ItemsExtent<E>(s: ItemSchema<E>, items: seq<seq<byte>>, rest: seq<byte>, count: nat, offset: nat, index: nat, cursor: nat)
    requires LeadingItem(s) && GoodItems(s, items) && count == index + |items|
    requires offset + cursor + |Concat(items)| <= USIZE_MAX
    ensures Extent(Traversal(s, Concat(items) + rest, count, offset, index, cursor)) == Ok(|Concat(items)|)
    decreases items
  {
    hide Traversal, LeadingItem, GoodItem, Yields;
    if items == [] {
      assert Concat(items) + rest == rest;
      TraversalEnds(s, rest, count, offset, cursor);
    } else {
      var item, tail := items[0], Concat(items[1..]);
      assert GoodItem(s, item);
      ItemFrames(s, item, tail + rest, offset + cursor);
      assert Concat(items) + rest == item + (tail + rest);
      assert (item + (tail + rest))[|item|..] == tail + rest;
      TraversalYields(s, item + (tail + rest), count, offset, index, cursor, |item|);
      ItemsExtent(s, items[1..], rest, count, offset, index + 1, cursor + |item|);
    }
  }

  /** A parent finds the end of an array that other fields follow. */
  lemma ParentExtentOfItems<E>(s: ItemSchema<E>, items: seq<seq<byte>>, rest: seq<byte>, offset: nat)
    requires LeadingItem(s) && GoodItems(s, items) && offset + |Concat(items)| <= USIZE_MAX
    ensures ParentExtent(s, Concat(items) + rest, |items|, offset) == Ok(|Concat(items)|)
  {
    hide Traversal, Extent, LeadingItem, GoodItem;
    FixedItems(s, items);
    ItemsExtent(s, items, rest, |items|, offset, 0, 0);
  }

  /** Leading items in front of some bytes are read from their own bytes alone. */
  lemma {:induction false} TilesInside<E>(s: ItemSchema<E>, rest: seq<byte>, at: nat, widths: seq<nat>)
    requires LeadingItem(s) && s.fixed.None? && Tiles(s, rest, at, widths)
    ensures Total(widths) <= |rest| && Tiles(s, rest[..Total(widths)], at, widths)
    decreases |widths|
  {
    hide LeadingItem, ReadsNext;
    if widths != [] {
      var n := widths[0];
      TilesInside(s, rest[n..], at + n, widths[1..]);
      var inside := rest[..Total(widths)];
      assert inside[n..] == rest[n..][..Total(widths[1..])];
      ReadInside(s, rest, inside, at, n);
    }
  }

  lemma ReadInside<E>(s: ItemSchema<E>, rest: seq<byte>, inside: seq<byte>, at: nat, n: nat)
    requires LeadingItem(s) && s.fixed.None? && n <= |inside| && inside <= rest && ReadsNext(s, rest, at, Ok(n))
    ensures ReadsNext(s, inside, at, Ok(n))
  {
    FrameReads(s, rest, at, Ok(n));
    FrameReads(s, inside, at, Ok(n));
    assert rest[..n] <= inside;
  }

  lemma TilesToInside<E>(s: ItemSchema<E>, rest: seq<byte>, at: nat, count: nat, extent: nat)
    requires LeadingItem(s) && s.fixed.None? && TilesTo(s, rest, at, count, extent)
    ensures extent <= |rest| && TilesTo(s, rest[..extent], at, count, extent)
  {
    hide LeadingItem, Tiles;
    var widths :| |widths| == count && Total(widths) == extent && Tiles(s, rest, at, widths);
    TilesInside(s, rest, at, widths);
  }

  lemma ItemFrames<E>(s: ItemSchema<E>, item: seq<byte>, rest: seq<byte>, at: nat)
    requires LeadingItem(s) && GoodItem(s, item)
    requires at <= USIZE_MAX
    ensures Yields(s, item + rest, at, |item|) && |item| > 0
  {
    var offered := s.Offered(item + rest);
    assert item[..|item|] == item;
    assert item <= offered;
    assert s.Frame(offered, at) == s.Frame(item, 0);
  }

  /** A clean traversal cuts its input into `count` good items. */
  lemma {:induction false} CleanPieces<E>(s: ItemSchema<E>, input: seq<byte>, count: nat, offset: nat, index: nat, cursor: nat)
    requires Reframes(s) && index <= count && Clean(Traversal(s, input, count, offset, index, cursor))
    ensures var pieces := Pieces(Traversal(s, input, count, offset, index, cursor), input);
            |pieces| == count - index && GoodItems(s, pieces) && Concat(pieces) == input
    decreases count - index
  {
    hide Traversal, Reframes, GoodItem, GoodItems, Concat, Yields;
    if index == count {
      TraversalEnds(s, input, count, offset, cursor);
      NoPieces(s);
    } else {
      CleanYields(s, input, count, offset, index, cursor);
      var steps := Traversal(s, input, count, offset, index, cursor);
      var n := steps.width;
      PieceGood(s, input, offset + cursor, n);
      CleanPieces(s, input[n..], count, offset, index + 1, cursor + n);
      PiecesCons(s, input[..n], Pieces(steps.rest, input[n..]));
      assert input == input[..n] + input[n..];
    }
  }

  lemma NoPieces<E>(s: ItemSchema<E>)
    ensures GoodItems(s, []) && Concat([]) == []
  {
  }

  lemma PiecesCons<E>(s: ItemSchema<E>, piece: seq<byte>, rest: seq<seq<byte>>)
    requires GoodItem(s, piece) && GoodItems(s, rest)
    ensures GoodItems(s, [piece] + rest) && Concat([piece] + rest) == piece + Concat(rest)
  {
    assert ([piece] + rest)[1..] == rest;
  }

  lemma PieceGood<E>(s: ItemSchema<E>, input: seq<byte>, at: nat, n: nat)
    requires Reframes(s) && Yields(s, input, at, n)
    ensures n <= |input| && GoodItem(s, input[..n])
  {
    var offered, piece := s.Offered(input), input[..n];
    assert n <= |offered| && offered[..n] == piece;
    assert s.Frame(piece, 0) == s.Frame(offered, at);
  }

  /** An item value: the steps its own writer makes on a child cursor, with positions
      counted from where the item starts, and the bytes it is represented by. */
  datatype ItemSource = ItemSource(steps: seq<Step>, bytes: seq<byte>)

  function Moved(step: Step, start: nat): Step {
    match step
    case Emit(bytes) => step
    case FillTo(position) => FillTo(start + position)
    case Patch(offset, bytes) => Patch(start + offset, bytes)
    case Expand(offset, bytes) => Expand(start + offset, bytes)
  }

  /** The calls an item makes when it starts at `start`. */
  function From(steps: seq<Step>, start: nat): seq<Step> {
    if steps == [] then [] else [Moved(steps[0], start)] + From(steps[1..], start)
  }

  ghost predicate CanStart(rep: seq<byte>, start: nat, limit: Option<nat>) {
    start <= |rep| && Within(start, limit) && (limit.None? ==> start == |rep|)
  }

  /** The calls leave `bytes` from `start` on, or are refused where those do not fit. */
  ghost predicate Leaves(rep: seq<byte>, start: nat, limit: Option<nat>, steps: seq<Step>, bytes: seq<byte>)
    requires CanStart(rep, start, limit)
  {
    ApplySteps(rep, start, start, limit, From(steps, start)) ==
      if Within(start + |bytes|, limit) then Region(Overlay(rep, start, bytes), start + |bytes|) else Closed
  }

  /** Wherever the item starts, its steps leave those bytes and need no more room than
      them. */
  ghost predicate Writes(steps: seq<Step>, bytes: seq<byte>) {
    forall rep: seq<byte>, start: nat, limit: Option<nat> :: CanStart(rep, start, limit) ==> Leaves(rep, start, limit, steps, bytes)
  }

  /** Writing bytes straight through is such a value. */
  lemma PlainWrites(bytes: seq<byte>)
    ensures Writes([Emit(bytes)], bytes)
  {
    forall rep: seq<byte>, start: nat, limit: Option<nat> | CanStart(rep, start, limit)
      ensures Leaves(rep, start, limit, [Emit(bytes)], bytes)
    {
      FromOne(Emit(bytes), start);
      StepAlone(rep, start, start, limit, Emit(bytes));
    }
  }

  // Every way an item's writer can go on keeps this form.

  lemma {:induction false} FromAppend(a: seq<Step>, b: seq<Step>, start: nat)
    ensures From(a + b, start) == From(a, start) + From(b, start)
  {
    if a == [] {
      assert a + b == b;
    } else {
      FromAppend(a[1..], b, start);
      assert (a + b)[1..] == a[1..] + b;
    }
  }

  lemma {:induction false} FromTwice(steps: seq<Step>, shift: nat, start: nat)
    ensures From(From(steps, shift), start) == From(steps, start + shift)
  {
    if steps != [] {
      FromTwice(steps[1..], shift, start);
      assert From(steps, shift)[1..] == From(steps[1..], shift);
    }
  }

  lemma {:induction false} StepsThen(rep: seq<byte>, start: nat, cursor: nat, limit: Option<nat>, a: seq<Step>, b: seq<Step>)
    requires start <= cursor <= |rep| && Within(cursor, limit) && (limit.None? ==> cursor == |rep|)
    ensures ApplySteps(rep, start, cursor, limit, a).Region? ==> Within(ApplySteps(rep, start, cursor, limit, a).cursor, limit)
    ensures ApplySteps(rep, start, cursor, limit, a + b) ==
              var r := ApplySteps(rep, start, cursor, limit, a);
              if r.Closed? then Closed else ApplySteps(r.rep, start, r.cursor, limit, b)
    decreases |a|
  {
    if a == [] {
      assert a + b == b;
    } else {
      assert (a + b)[1..] == a[1..] + b;
      var e := EditOf(rep, start, cursor, limit, a[0]);
      if e.Edit? {
        StepsThen(Overlay(rep, e.offset, e.patch), start, e.cursor, limit, a[1..], b);
      }
    }
  }

  /** A position counted from `from` is not before it. */
  lemma LowerEdit(rep: seq<byte>, start: nat, from: nat, cursor: nat, limit: Option<nat>, step: Step)
    requires start <= from <= cursor && Within(cursor, limit)
    ensures EditOf(rep, start, cursor, limit, Moved(step, from)) == EditOf(rep, from, cursor, limit, Moved(step, from))
  {
  }

  lemma {:induction false} LowerStart(rep: seq<byte>, start: nat, from: nat, cursor: nat, limit: Option<nat>, steps: seq<Step>)
    requires start <= from <= cursor <= |rep| && Within(cursor, limit) && (limit.None? ==> cursor == |rep|)
    ensures ApplySteps(rep, start, cursor, limit, From(steps, from)) == ApplySteps(rep, from, cursor, limit, From(steps, from))
    decreases |steps|
  {
    hide EditOf, Moved, Overlay;
    if steps != [] {
      assert From(steps, from) == [Moved(steps[0], from)] + From(steps[1..], from);
      LowerEdit(rep, start, from, cursor, limit, steps[0]);
      var e := EditOf(rep, from, cursor, limit, Moved(steps[0], from));
      if e.Edit? {
        LowerStart(Overlay(rep, e.offset, e.patch), start, from, e.cursor, limit, steps[1..]);
      }
    }
  }

  /** One item written inside another: its positions move with it. */
  lemma WritesThen(a: seq<Step>, x: seq<byte>, b: seq<Step>, y: seq<byte>)
    requires Writes(a, x) && Writes(b, y)
    ensures Writes(a + From(b, |x|), x + y)
  {
    hide Leaves, Overlay;
    forall rep: seq<byte>, start: nat, limit: Option<nat> | CanStart(rep, start, limit)
      ensures Leaves(rep, start, limit, a + From(b, |x|), x + y)
    {
      if Within(start + |x|, limit) {
        OverlayLonger(rep, start, x, x);
      }
      LeavesThen(rep, start, limit, a, x, b, y);
    }
  }

  lemma LeavesThen(rep: seq<byte>, start: nat, limit: Option<nat>, a: seq<Step>, x: seq<byte>, b: seq<Step>, y: seq<byte>)
    requires CanStart(rep, start, limit) && Leaves(rep, start, limit, a, x)
    requires Within(start + |x|, limit) ==>
               CanStart(Overlay(rep, start, x), start + |x|, limit) && Leaves(Overlay(rep, start, x), start + |x|, limit, b, y)
    ensures Leaves(rep, start, limit, a + From(b, |x|), x + y)
  {
    hide ApplySteps, From, Overlay, EditOf;
    FromAppend(a, From(b, |x|), start);
    FromTwice(b, |x|, start);
    StepsThen(rep, start, start, limit, From(a, start), From(b, start + |x|));
    if Within(start + |x|, limit) {
      LowerStart(Overlay(rep, start, x), start, start + |x|, start + |x|, limit, b);
      OverlayTwice(rep, start, x, y);
    }
  }

  /** With `x` in its region, a call leaves `y` there, or is refused where `y` does not fit. */
  ghost predicate Turns(rep: seq<byte>, start: nat, limit: Option<nat>, x: seq<byte>, step: Step, y: seq<byte>)
    requires start + |x| <= |rep| && Within(start + |x|, limit)
  {
    var e := EditOf(rep, start, start + |x|, limit, Moved(step, start));
    if Within(start + |y|, limit)
    then e.Edit? && e.cursor == start + |y| && Overlay(rep, e.offset, e.patch) == Overlay(rep, start, y)
    else e.NoEdit?
  }

  lemma LeavesMore(rep: seq<byte>, start: nat, limit: Option<nat>, a: seq<Step>, x: seq<byte>, step: Step, y: seq<byte>)
    requires Writes(a, x) && |x| <= |y| && CanStart(rep, start, limit)
    requires Within(start + |x|, limit) ==>
               |Overlay(rep, start, x)| >= start + |x| && Turns(Overlay(rep, start, x), start, limit, x, step, y)
    ensures Leaves(rep, start, limit, a + [step], y)
  {
    hide From, Overlay, EditOf, Moved, ApplySteps;
    assert Leaves(rep, start, limit, a, x);
    FromAppend(a, [step], start);
    FromOne(step, start);
    StepsThen(rep, start, start, limit, From(a, start), [Moved(step, start)]);
    if Within(start + |x|, limit) {
      OverlayLonger(rep, start, x, y);
      StepAlone(Overlay(rep, start, x), start, start + |x|, limit, Moved(step, start));
    }
  }

  lemma StepAlone(rep: seq<byte>, start: nat, cursor: nat, limit: Option<nat>, step: Step)
    requires start <= cursor <= |rep| && Within(cursor, limit) && (limit.None? ==> cursor == |rep|)
    ensures ApplySteps(rep, start, cursor, limit, [step]) ==
              match EditOf(rep, start, cursor, limit, step)
              case NoEdit => Closed
              case Edit(offset, patch, next) => Region(Overlay(rep, offset, patch), next)
  {
    hide EditOf, Overlay;
    assert [step][1..] == [];
  }

  lemma FromOne(step: Step, start: nat)
    ensures From([step], start) == [Moved(step, start)]
  {
    assert [step][1..] == [];
  }

  lemma OverlayLonger(rep: seq<byte>, at: nat, x: seq<byte>, y: seq<byte>)
    requires at <= |rep| && |x| <= |y|
    ensures at + |x| <= |Overlay(rep, at, x)| == Max(|rep|, at + |x|) && Overlay(rep, at, x)[at..at + |x|] == x
    ensures Overlay(Overlay(rep, at, x), at, y) == Overlay(rep, at, y)
  {
    var u, v := Overlay(Overlay(rep, at, x), at, y), Overlay(rep, at, y);
    assert |u| == |v|;
    forall i | 0 <= i < |u| ensures u[i] == v[i] {
    }
  }

  /** Patching what the item holds, such as a count reserved before its own items. */
  lemma WritesPatched(a: seq<Step>, x: seq<byte>, offset: nat, bytes: seq<byte>)
    requires Writes(a, x) && offset + |bytes| <= |x|
    ensures Writes(a + [Patch(offset, bytes)], Poked(x, offset, bytes))
  {
    hide Leaves, Poked;
    var y := Poked(x, offset, bytes);
    forall rep: seq<byte>, start: nat, limit: Option<nat> | CanStart(rep, start, limit)
      ensures Leaves(rep, start, limit, a + [Patch(offset, bytes)], y)
    {
      OverlayLonger(rep, start, x, y);
      PatchInside(Overlay(rep, start, x), start, x, offset, bytes);
      LeavesMore(rep, start, limit, a, x, Patch(offset, bytes), y);
    }
  }

  lemma PatchInside(rep: seq<byte>, start: nat, x: seq<byte>, offset: nat, bytes: seq<byte>)
    requires start + |x| <= |rep| && rep[start..start + |x|] == x && offset + |bytes| <= |x|
    ensures Overlay(rep, start + offset, bytes) == Overlay(rep, start, Poked(x, offset, bytes))
  {
    var u, v := Overlay(rep, start + offset, bytes), Overlay(rep, start, Poked(x, offset, bytes));
    assert |u| == |v|;
    forall i | 0 <= i < |u| ensures u[i] == v[i] {
      assert start <= i < start + |x| ==> rep[i] == x[i - start];
    }
  }

  /** Zeros up to a position, as before a placed field. */
  lemma WritesFilled(a: seq<Step>, x: seq<byte>, position: nat)
    requires Writes(a, x) && |x| <= position
    ensures Writes(a + [FillTo(position)], x + Zeros(position - |x|))
  {
    hide Leaves, Turns, Overlay;
    var y := x + Zeros(position - |x|);
    forall rep: seq<byte>, start: nat, limit: Option<nat> | CanStart(rep, start, limit)
      ensures Leaves(rep, start, limit, a + [FillTo(position)], y)
    {
      OverlayLonger(rep, start, x, y);
      if Within(start + |x|, limit) {
        FillTurns(rep, start, limit, x, position, y);
      }
      LeavesMore(rep, start, limit, a, x, FillTo(position), y);
    }
  }

  lemma FillTurns(rep: seq<byte>, start: nat, limit: Option<nat>, x: seq<byte>, position: nat, y: seq<byte>)
    requires start <= |rep| && |x| <= position && y == x + Zeros(position - |x|) && Within(start + |x|, limit)
    ensures start + |x| <= |Overlay(rep, start, x)| && Turns(Overlay(rep, start, x), start, limit, x, FillTo(position), y)
  {
    hide Overlay;
    OverlayLonger(rep, start, x, y);
    OverlayTwice(rep, start, x, Zeros(position - |x|));
  }

  /** Replacing a reserved byte, as for a variable-width count. */
  lemma WritesExpanded(a: seq<Step>, x: seq<byte>, offset: nat, bytes: seq<byte>)
    requires Writes(a, x) && offset < |x| && bytes != []
    ensures Writes(a + [Expand(offset, bytes)], x[..offset] + bytes + x[offset + 1..])
  {
    hide Leaves, Turns, Overlay;
    var y := x[..offset] + bytes + x[offset + 1..];
    forall rep: seq<byte>, start: nat, limit: Option<nat> | CanStart(rep, start, limit)
      ensures Leaves(rep, start, limit, a + [Expand(offset, bytes)], y)
    {
      OverlayLonger(rep, start, x, y);
      if Within(start + |x|, limit) {
        ExpandTurns(Overlay(rep, start, x), start, limit, x, offset, bytes, y);
      }
      LeavesMore(rep, start, limit, a, x, Expand(offset, bytes), y);
    }
  }

  lemma ExpandTurns(rep: seq<byte>, start: nat, limit: Option<nat>, x: seq<byte>, offset: nat, bytes: seq<byte>, y: seq<byte>)
    requires start + |x| <= |rep| && rep[start..start + |x|] == x && Within(start + |x|, limit)
    requires offset < |x| && bytes != [] && y == x[..offset] + bytes + x[offset + 1..]
    ensures Turns(rep, start, limit, x, Expand(offset, bytes), y)
  {
    hide Overlay;
    assert rep[start + offset + 1..start + |x|] == x[offset + 1..];
    ExpandInside(rep, start, x, offset, bytes, y);
  }

  lemma ExpandInside(rep: seq<byte>, start: nat, x: seq<byte>, offset: nat, bytes: seq<byte>, y: seq<byte>)
    requires start + |x| <= |rep| && rep[start..start + |x|] == x && offset < |x|
    requires bytes != [] && y == x[..offset] + bytes + x[offset + 1..]
    ensures Overlay(rep, start + offset, bytes + x[offset + 1..]) == Overlay(rep, start, y)
  {
    var u, v := Overlay(rep, start + offset, bytes + x[offset + 1..]), Overlay(rep, start, y);
    assert |u| == |v|;
    forall i | 0 <= i < |u| ensures u[i] == v[i] {
      assert start <= i < start + |x| ==> rep[i] == x[i - start];
    }
  }

  /** A nested counted array: the count is reserved, the items are emitted, each by its own
      calls, and the reserved bytes are patched. */
  function Nested(sources: seq<ItemSource>): ItemSource {
    if sources == [] then ItemSource([], [])
    else
      var rest := Nested(sources[1..]);
      ItemSource(sources[0].steps + From(rest.steps, |sources[0].bytes|), sources[0].bytes + rest.bytes)
  }

  function CountedItems(reserved: seq<byte>, sources: seq<ItemSource>, count: seq<byte>): ItemSource {
    ItemSource([Emit(reserved)] + From(Nested(sources).steps, |reserved|) + [Patch(0, count)], count + Nested(sources).bytes)
  }

  lemma {:induction false} NestedWrites(sources: seq<ItemSource>)
    requires forall k :: 0 <= k < |sources| ==> Writes(sources[k].steps, sources[k].bytes)
    ensures Writes(Nested(sources).steps, Nested(sources).bytes)
    ensures Nested(sources).bytes == Concat(BytesOfSources(sources))
  {
    if sources == [] {
      NothingWrites();
    } else {
      hide Writes;
      NestedWrites(sources[1..]);
      WritesThen(sources[0].steps, sources[0].bytes, Nested(sources[1..]).steps, Nested(sources[1..]).bytes);
      assert BytesOfSources(sources)[1..] == BytesOfSources(sources[1..]);
    }
  }

  lemma NothingWrites()
    ensures Writes([], [])
  {
    forall rep: seq<byte>, start: nat, limit: Option<nat> | CanStart(rep, start, limit)
      ensures Leaves(rep, start, limit, [], [])
    {
      OverlayNothing(rep, start);
    }
  }

  /** An item that is itself a counted array, of items of any kind. */
  lemma CountedItemsWrite(reserved: seq<byte>, sources: seq<ItemSource>, count: seq<byte>)
    requires forall k :: 0 <= k < |sources| ==> Writes(sources[k].steps, sources[k].bytes)
    requires |reserved| == |count|
    ensures var item := CountedItems(reserved, sources, count);
            Writes(item.steps, item.bytes) && item.bytes == count + Concat(BytesOfSources(sources))
  {
    hide Writes;
    NestedWrites(sources);
    PlainWrites(reserved);
    WritesThen([Emit(reserved)], reserved, Nested(sources).steps, Nested(sources).bytes);
    var steps, x := [Emit(reserved)] + From(Nested(sources).steps, |reserved|), reserved + Nested(sources).bytes;
    WritesPatched(steps, x, 0, count);
    assert Poked(x, 0, count) == count + Nested(sources).bytes;
  }

  /** One byte of count reserved, one item, the count patched in. */
  lemma CountedExample()
    ensures Writes([Emit([0]), Emit([7]), Patch(0, [1])], [1, 7])
  {
    hide Writes;
    PlainWrites([0]);
    PlainWrites([7]);
    WritesThen([Emit([0])], [0], [Emit([7])], [7]);
    FromOne(Emit([7]), 1);
    WritesPatched([Emit([0])] + [Emit([7])], [0] + [7], 0, [1]);
    assert Poked([0] + [7], 0, [1]) == [1, 7];
    assert [Emit([0])] + [Emit([7])] + [Patch(0, [1])] == [Emit([0]), Emit([7]), Patch(0, [1])];
  }

  /** What an item's own writer promises: one item, or nothing at all. */
  ghost predicate ValidSource<E>(s: ItemSchema<E>, source: ItemSource) {
    Writes(source.steps, source.bytes) && (source.bytes != [] ==> GoodItem(s, source.bytes))
  }

  ghost predicate ValidSources<E>(s: ItemSchema<E>, sources: seq<ItemSource>) {
    forall k :: 0 <= k < |sources| ==> ValidSource(s, sources[k])
  }

  function BytesOfSources(sources: seq<ItemSource>): (items: seq<seq<byte>>)
    ensures |items| == |sources| && forall k :: 0 <= k < |sources| ==> items[k] == sources[k].bytes
  {
    seq(|sources|, k requires 0 <= k < |sources| => sources[k].bytes)
  }

  /** Every source emits something. */
  predicate NonEmpty(sources: seq<ItemSource>) {
    forall k :: 0 <= k < |sources| ==> sources[k].bytes != []
  }

  lemma SourcesGood<E>(s: ItemSchema<E>, sources: seq<ItemSource>)
    requires ValidSources(s, sources) && NonEmpty(sources)
    ensures GoodItems(s, BytesOfSources(sources))
  {
    hide Writes, GoodItem;
    forall k | 0 <= k < |sources| ensures GoodItem(s, BytesOfSources(sources)[k]) {
      assert ValidSource(s, sources[k]);
    }
  }

  /** The room an obliging output and a child's limit leave. */
  ghost predicate Room(child: ChildWriter, end: nat)
    reads child.writer, child.writer.output
  {
    child.Fits(end) && end <= child.writer.output.Capacity()
  }

  /** A child that has caught up with its parent. */
  ghost predicate Ready(child: ChildWriter)
    reads child, child.writer, child.writer.output
  {
    child.Valid() && child.Fits(child.cursor) && child.cursor <= child.writer.cursor
  }

  // ----- one item on a child cursor -----

  /** Writes one item through a nested child and returns the next count. */
  method ArrayItem(child: ChildWriter, count: nat, source: ItemSource) returns (r: Result<nat, OutputError>)
    requires Ready(child) && Writes(source.steps, source.bytes)
    modifies child, child.writer, child.writer.output
    ensures r.Ok? ==>
              && r.value == count + 1 <= USIZE_MAX && source.bytes != [] && Ready(child)
              && child.cursor == old(child.cursor) + |source.bytes|
              && child.Rep() == Overlay(old(child.Rep()), old(child.cursor), source.bytes)
    ensures child.writer.output.policy.Obliging() ==>
              (r.Ok? <==> source.bytes != [] && count + 1 <= USIZE_MAX && Room(child, old(child.cursor) + |source.bytes|))
    ensures child.writer.SameCapacity()
  {
    var start := child.cursor;
    var nested := new ChildWriter(child.writer, start, start, child.limit);
    hide ApplySteps, Isolated, Overlay, Policy.Obliging, From;
    assert Leaves(child.Rep(), start, child.limit, source.steps, source.bytes);
    var written := RunSteps(nested, From(source.steps, start));
    if written.Err? {
      return Err(written.error);
    }
    child.cursor := nested.cursor;
    if child.cursor == start {
      return Err(NonProgressItem(count));
    }
    if count + 1 > USIZE_MAX {
      return Err(LengthOverflow);
    }
    r := Ok(count + 1);
  }

  /** The region from `from` holds `items` and nothing else. */
  ghost predicate Emitted<E>(s: ItemSchema<E>, region: seq<byte>, items: seq<seq<byte>>, count: nat) {
    region == Concat(items) && GoodItems(s, items) && |items| == count
  }

  lemma EmittedMore<E>(s: ItemSchema<E>, region: seq<byte>, items: seq<seq<byte>>, count: nat, more: seq<seq<byte>>)
    requires Emitted(s, region, items, count) && GoodItems(s, more)
    ensures Emitted(s, region + Concat(more), items + more, count + |more|)
  {
    hide GoodItem;
    ConcatAppend(items, more);
  }

  lemma EmittedItem<E>(s: ItemSchema<E>, before: seq<byte>, after: seq<byte>, from: nat, item: seq<byte>, items: seq<seq<byte>>, count: nat)
    requires from <= |before| && after == before + item && Emitted(s, before[from..], items, count) && GoodItem(s, item)
    ensures Emitted(s, after[from..], items + [item], count + 1)
  {
    hide GoodItem;
    ConcatOne(item);
    assert after[from..] == before[from..] + item;
    EmittedMore(s, before[from..], items, count, [item]);
  }

  /** A region of `count` items, read with that count, yields them in order. */
  lemma EmittedReadsBack<E>(s: ItemSchema<E>, region: seq<byte>, items: seq<seq<byte>>, count: nat, offset: nat)
    requires LeadingItem(s) && Emitted(s, region, items, count) && offset + |region| <= USIZE_MAX
    ensures var steps := Traversal(s, region, count, offset, 0, 0);
            Clean(steps) && Pieces(steps, region) == items && forall k :: 0 <= k < count ==> items[k] != []
  {
    ItemsReadBack(s, items, count, offset, 0, 0);
    forall k | 0 <= k < count ensures items[k] != [] {
      assert GoodItem(s, items[k]);
    }
  }

  /** Items that take the whole span they are given, wherever it is. */
  ghost predicate TakesSpan<E>(s: ItemSchema<E>) {
    && s.fixed.None? && !s.leading
    && forall x: seq<byte>, a: nat, b: nat {:trigger s.frameExact(x, a), s.frameExact(x, b)} ::
         s.frameExact(x, a).Ok? ==> s.frameExact(x, a).value == |x| && s.frameExact(x, b) == s.frameExact(x, a)
  }

  /** Of such items only a single one reads back; two or more never iterate cleanly. */
  lemma SpanItemsReadBack<E>(s: ItemSchema<E>, region: seq<byte>, items: seq<seq<byte>>, count: nat, offset: nat)
    requires TakesSpan(s) && Emitted(s, region, items, count) && offset + |region| <= USIZE_MAX
    ensures var steps := Traversal(s, region, count, offset, 0, 0);
            && (Clean(steps) <==> count <= 1)
            && (Clean(steps) ==> Pieces(steps, region) == items)
            && (count > 1 ==> |Pieces(steps, region)| <= 1)
  {
    var framed := s.frameExact(region, offset);
    if count == 1 {
      ConcatOne(items[0]);
      assert items == [items[0]] && GoodItem(s, items[0]);
      assert framed == s.frameExact(region, 0);
      TraversalYields(s, region, 1, offset, 0, 0, |region|);
    } else if count > 1 && framed.Ok? && region != [] {
      TraversalYields(s, region, count, offset, 0, 0, |region|);
      NothingLeft(s, count, offset, |region|);
    }
  }

  lemma NothingLeft<E>(s: ItemSchema<E>, count: nat, offset: nat, cursor: nat)
    requires TakesSpan(s) && count > 1
    ensures Traversal(s, [], count, offset, 1, cursor).Failed?
  {
  }

  // ----- the progressive array writer -----

  class ArrayWriter<!E> {
    const schema: ItemSchema<E>
    const writer: Writer
    var count: nat
    ghost const start: nat
    ghost var items: seq<seq<byte>>

    ghost predicate Valid()
      reads this, writer, writer.output
    {
      writer.Valid() && start <= writer.cursor && Emitted(schema, writer.Rep()[start..], items, count)
    }

    constructor (s: ItemSchema<E>, parent: Writer)
      requires parent.Valid()
      ensures schema == s && writer == parent && count == 0 && start == parent.cursor && Valid()
    {
      schema, writer, count, start, items := s, parent, 0, parent.cursor, [];
    }

    /** Writes one value as the next item. */
    method AddItem(source: ItemSource) returns (r: Outcome)
      requires Valid() && ValidSource(schema, source)
      modifies this, writer, writer.output
      ensures r.Ok? ==>
                && Valid() && source.bytes != [] && count == old(count) + 1 <= USIZE_MAX
                && writer.Rep() == old(writer.Rep()) + source.bytes && items == old(items) + [source.bytes]
      ensures writer.output.policy.Obliging() ==>
                (r.Ok? <==> && source.bytes != [] && old(count) + 1 <= USIZE_MAX
                            && old(writer.cursor) + |source.bytes| <= Min(writer.output.Capacity(), USIZE_MAX))
      ensures writer.SameCapacity()
    {
      hide Emitted, Writes, GoodItem, Overlay;
      ghost var before := writer.Rep();
      var position := writer.cursor;
      var cursor := writer.ChildAt(position);
      match cursor {
        case Err(error) => return Err(error);
        case Ok(child) =>
          assert writer.Rep() == before;
          var written := ArrayItem(child, count, source);
          if written.Err? {
            return Err(written.error);
          }
          var finished := child.Finish();
          assert finished.Ok?;
          OverlayAtEnd(before, source.bytes);
          EmittedItem(schema, before, writer.Rep(), start, source.bytes, items, count);
          items := items + [source.bytes];
          count := written.value;
          r := Ok(Unit);
      }
    }

    /** Adds the items of the values one after the other, up to the first refusal. */
    method TryExtend(sources: seq<ItemSource>) returns (r: Outcome)
      requires Valid() && ValidSources(schema, sources)
      modifies this, writer, writer.output
      ensures r.Ok? ==>
                && Valid() && count == old(count) + |sources| && items == old(items) + BytesOfSources(sources)
                && writer.Rep() == old(writer.Rep()) + Concat(BytesOfSources(sources))
      ensures writer.output.policy.Obliging() ==>
                (r.Ok? <==> && NonEmpty(sources) && (sources == [] || old(count) + |sources| <= USIZE_MAX)
                            && old(writer.cursor) + |Concat(BytesOfSources(sources))| <= Min(writer.output.Capacity(), USIZE_MAX))
      ensures writer.SameCapacity()
    {
      hide Emitted, ValidSource, Concat, Policy.Obliging;
      ghost var all := BytesOfSources(sources);
      NothingJoined(all, writer.Rep());
      for k := 0 to |sources|
        invariant Valid() && count == old(count) + k && items == old(items) + all[..k] && writer.SameCapacity()
        invariant writer.Rep() == old(writer.Rep()) + Concat(all[..k])
        invariant k > 0 ==> count <= USIZE_MAX
        invariant forall i :: 0 <= i < k ==> sources[i].bytes != []
      {
        JoinedWithin(all, k + 1);
        JoinNext(all, k, old(writer.Rep()));
        r := AddItem(sources[k]);
        if r.Err? {
          return;
        }
      }
      assert all[..|sources|] == all;
      r := Ok(Unit);
    }

    /** Appends the bytes of an item that was read before. */
    method ItemView(item: seq<byte>) returns (r: Outcome)
      requires Valid() && (item != [] ==> GoodItem(schema, item))
      modifies this, writer, writer.output
      ensures item == [] ==> r == Err(NonProgressItem(old(count)))
      ensures r.Ok? ==>
                && Valid() && count == old(count) + 1
                && writer.Rep() == old(writer.Rep()) + item && items == old(items) + [item]
      ensures writer.output.policy.Obliging() ==>
                (r.Ok? <==> && item != [] && old(count) + 1 <= USIZE_MAX
                            && old(writer.cursor) + |item| <= Min(writer.output.Capacity(), USIZE_MAX))
    {
      hide Emitted, GoodItem;
      if item == [] {
        return Err(NonProgressItem(count));
      }
      ghost var before := writer.Rep();
      var _ :- writer.WriteAt(writer.cursor, item);
      if count + 1 > USIZE_MAX {
        return Err(LengthOverflow);
      }
      OverlaidIsOverlay(before, writer.Rep(), |before|, item);
      OverlayAtEnd(before, item);
      EmittedItem(schema, before, writer.Rep(), start, item, items, count);
      items := items + [item];
      count := count + 1;
      r := Ok(Unit);
    }

    /** Appends the bytes of a whole array and its count. They are items of this writer
        when items frame again on their own and succeed alike cut and before others, as
        leading items do (`LeadingReframes`, `LeadingBlind`). */
    method CopyFrom(source: ArrayView<E>) returns (r: Result<Unit, ArrayWriteError<E>>)
      requires Valid() && source.Valid() && source.schema == schema
      modifies this, writer, writer.output
      ensures r.Ok? ==>
                && writer.Valid() && count == old(count) + source.count && Copyable(source)
                && writer.Rep() == old(writer.Rep()) + source.input
      ensures r.Ok? && Reframes(schema) && Blind(schema) ==>
                && Valid() && Clean(source.Items()) && items == old(items) + Pieces(source.Items(), source.input)
      ensures writer.output.policy.Obliging() ==>
                (r.Ok? <==> && old(count) + source.count <= USIZE_MAX && Copyable(source)
                            && old(writer.cursor) + |source.input| <= Min(writer.output.Capacity(), USIZE_MAX))
    {
      hide Emitted, GoodItem, Traversal, Reframes, Blind, Copyable, Walk, Clean;
      if count + source.count > USIZE_MAX {
        return Err(OutputFailed(LengthOverflow));
      }
      var exact := ExactBytes(source);
      ExactCopies(source, exact.Ok?);
      if exact.Err? {
        return Err(SchemaFailed(exact.error));
      }
      var input, started: nat := exact.value, count;
      if source.count != 0 && input == [] {
        return Err(OutputFailed(NonProgressItem(started)));
      }
      ghost var before := writer.Rep();
      var written := writer.WriteAt(writer.cursor, input);
      if written.Err? {
        return Err(OutputFailed(written.error));
      }
      OverlaidIsOverlay(before, writer.Rep(), |before|, source.input);
      OverlayAtEnd(before, source.input);
      if Reframes(schema) && Blind(schema) {
        ghost var pieces := Pieces(source.Items(), source.input);
        CleanPieces(schema, source.input, source.count, source.offset, 0, 0);
        EmittedMore(schema, before[start..], items, count, pieces);
        assert writer.Rep()[start..] == before[start..] + source.input;
        items := items + pieces;
      }
      count := count + source.count;
      r := Ok(Unit);
    }
  }

  /** What copying asks of a whole array: that it iterates cleanly or, for items of a fixed
      width, that it has the multiplied extent and the walk over it succeeds. */
  ghost predicate Copyable<E>(v: ArrayView<E>) {
    match v.schema.fixed
    case None => Clean(v.Items())
    case Some(width) => |v.input| == Times(v.count, width) && Walk(v.schema, v.input, v.count, v.offset, 0, 0).Ok?
  }

  /** The exact bytes of an array exist exactly when it can be copied, and a copy of some
      items is not empty. */
  lemma ExactCopies<E>(v: ArrayView<E>, exact: bool)
    requires v.Valid()
    requires Blind(v.schema) ==> (exact <==> Clean(v.Items()))
    requires v.schema.fixed.Some? ==>
               (exact <==> |v.input| == Times(v.count, v.schema.fixed.value) && Walk(v.schema, v.input, v.count, v.offset, 0, 0).Ok?)
    ensures exact <==> Copyable(v)
    ensures exact && v.count != 0 ==> v.input != []
  {
    hide Traversal, Walk;
    if v.schema.fixed.None? {
      if Clean(v.Items()) && v.count != 0 {
        CleanYields(v.schema, v.input, v.count, v.offset, 0, 0);
      }
    } else {
      FixedAgrees(v);
      if v.count != 0 {
        MulAtLeast(v.count, v.schema.fixed.value);
      }
    }
  }

  lemma NothingJoined(items: seq<seq<byte>>, rep: seq<byte>)
    ensures items[..0] == [] && rep + Concat(items[..0]) == rep && Concat(items[..0]) == []
  {
  }

  lemma JoinNext(items: seq<seq<byte>>, k: nat, rep: seq<byte>)
    requires k < |items|
    ensures items[..k + 1] == items[..k] + [items[k]]
    ensures Concat(items[..k + 1]) == Concat(items[..k]) + items[k]
    ensures rep + Concat(items[..k + 1]) == rep + Concat(items[..k]) + items[k]
  {
    assert items[..k + 1] == items[..k] + [items[k]];
    ConcatAppend(items[..k], [items[k]]);
    ConcatOne(items[k]);
  }

  // ----- the deferred source of a detached builder -----

  /** Writes every retained value into the parent's child cursor and returns the count. */
  method WriteSource(sources: seq<ItemSource>, child: ChildWriter) returns (r: Result<nat, OutputError>)
    requires Ready(child) && forall k :: 0 <= k < |sources| ==> Writes(sources[k].steps, sources[k].bytes)
    modifies child, child.writer, child.writer.output
    ensures r.Ok? ==>
              && r.value == |sources| && NonEmpty(sources) && Ready(child)
              && child.cursor == old(child.cursor) + |Concat(BytesOfSources(sources))|
              && child.Rep() == Overlay(old(child.Rep()), old(child.cursor), Concat(BytesOfSources(sources)))
    ensures child.writer.output.policy.Obliging() ==>
              (r.Ok? <==> NonEmpty(sources) && Room(child, old(child.cursor) + |Concat(BytesOfSources(sources))|))
    ensures child.writer.SameCapacity()
  {
    hide Writes, Overlay, Concat;
    ghost var before, from, all := child.Rep(), child.cursor, BytesOfSources(sources);
    var count := 0;
    NothingJoined(all, []);
    OverlayNothing(before, from);
    for k := 0 to |sources|
      invariant count == k && Ready(child) && child.writer.SameCapacity()
      invariant forall i :: 0 <= i < k ==> sources[i].bytes != []
      invariant child.cursor == from + |Concat(all[..k])| && child.cursor >= from + k
      invariant child.Rep() == Overlay(before, from, Concat(all[..k]))
    {
      JoinNext(all, k, []);
      JoinedWithin(all, k + 1);
      OverlayTwice(before, from, Concat(all[..k]), all[k]);
      var next := ArrayItem(child, count, sources[k]);
      if next.Err? {
        return Err(next.error);
      }
      count := next.value;
    }
    assert all[..|sources|] == all;
    r := Ok(count);
  }

  lemma OverlayNothing(rep: seq<byte>, at: nat)
    requires at <= |rep|
    ensures Overlay(rep, at, []) == rep
  {
    assert rep[..at] + [] + rep[at..] == rep;
  }

  lemma OverlayTwice(rep: seq<byte>, at: nat, a: seq<byte>, b: seq<byte>)
    requires at <= |rep|
    ensures at + |a| <= |Overlay(rep, at, a)|
    ensures Overlay(Overlay(rep, at, a), at + |a|, b) == Overlay(rep, at, a + b)
  {
    var x, y := Overlay(Overlay(rep, at, a), at + |a|, b), Overlay(rep, at, a + b);
    assert |x| == |y|;
    forall i | 0 <= i < |x| ensures x[i] == y[i] {
    }
  }

  lemma {:induction false} JoinedWithin(items: seq<seq<byte>>, k: nat)
    requires k <= |items|
    ensures |Concat(items[..k])| <= |Concat(items)|
    decreases |items|
  {
    assert items == items[..k] + items[k..];
    ConcatAppend(items[..k], items[k..]);
  }
}
