/** Random access and iteration over one recursive array: every encoding of the
    geometry that describes the items, the slow replay and the forward iterator give the
    same item spans, and panic on the same items. */
module RecursiveArrays {
  import opened Base
  import opened Errors
  import opened Widths
  import opened GeometryStorage
  import opened GeometryLookup
  import opened RecursiveGeometry
  import opened Grammar
  import opened RecursiveSignature
  import opened RecursiveMachine
  import opened RecursiveFrames
  import opened GeometryShape
  import opened GeometryBuild
  import opened RecursiveExtent
  import opened Locality

  /** Finds an item by framing every item before it. */
  method ReplaySpan(g: Grammar, input: seq<byte>, offset: nat, depth: RecursiveDepth, requested: nat)
    returns (r: Lookup)
    requires offset + |input| <= USIZE_MAX && g.selector.width > 0
    ensures match ParseItems(g, requested + 1, input, offset, depth.remaining)
            case NoParse => r.Err?
            case Parsed(_, end) =>
              && r.Ok? && r.value.Some? && r.value.value.end == end
              && ParseItems(g, requested, input, offset, depth.remaining).Extent() == Some(r.value.value.start)
  {
    hide ParseRoot, ParseItems;
    var cursor: nat := 0;
    var index: nat := 0;
    NoItems(g, requested + 1, input, offset, depth.remaining);
    while true
      invariant index <= requested && cursor <= |input|
      invariant ParseItems(g, index, input, offset, depth.remaining).Extent() == Some(cursor)
      invariant ParseItems(g, requested + 1, input, offset, depth.remaining).Extent() ==
                  Further(cursor, ParseItems(g, requested + 1 - index, input[cursor..], offset + cursor, depth.remaining).Extent())
      decreases requested - index
    {
      var absolute: nat := offset + cursor;
      var available: nat := |input| - cursor;
      NextItem(g, index, requested + 1, input, offset, depth.remaining, cursor);
      var measure := Skip(g, input[cursor..], absolute, depth);
      match measure {
        case Err(source) => return Err(Item(index, source));
        case Ok(Measure(consumed, _, _)) =>
          RootWidth(g, input[cursor..], absolute, depth.remaining);
          if consumed == 0 {
            return Err(NonProgress(index, absolute));
          }
          if consumed > available {
            return Err(InvalidExtent(index, consumed, available));
          }
          if index == requested {
            ItemsDone(g, input, offset, depth.remaining, cursor + consumed);
            return Ok(Some(Range(cursor, cursor + consumed)));
          }
          cursor := cursor + consumed;
          index := index + 1;
      }
    }
  }

  lemma NoItems(g: Grammar, n: nat, input: seq<byte>, at: nat, depth: nat)
    ensures ParseItems(g, 0, input, at, depth).Extent() == Some(0)
    ensures ParseItems(g, n, input, at, depth).Extent() == Further(0, ParseItems(g, n, input[0..], at + 0, depth).Extent())
  {
    hide ParseRoot;
    assert input[0..] == input;
  }

  lemma ItemsDone(g: Grammar, input: seq<byte>, at: nat, depth: nat, cursor: nat)
    requires cursor <= |input|
    ensures ParseItems(g, 0, input[cursor..], at + cursor, depth).Extent() == Some(0)
  {
    hide ParseRoot;
  }

  /** One more item, seen from the front and from the back. */
  lemma NextItem(g: Grammar, index: nat, n: nat, input: seq<byte>, at: nat, depth: nat, cursor: nat)
    requires index < n && cursor <= |input|
    requires ParseItems(g, index, input, at, depth).Extent() == Some(cursor)
    ensures match ParseRoot(g, input[cursor..], at + cursor, depth)
            case NoParse => ParseItems(g, n - index, input[cursor..], at + cursor, depth) == NoParse
            case Parsed(_, width) =>
              && cursor + width <= |input|
              && ParseItems(g, index + 1, input, at, depth).Extent() == Some(cursor + width)
              && Further(cursor, ParseItems(g, n - index, input[cursor..], at + cursor, depth).Extent()) ==
                   Further(cursor + width, ParseItems(g, n - index - 1, input[cursor + width..], at + (cursor + width), depth).Extent())
  {
    hide ParseRoot, ParseItems;
    match ParseRoot(g, input[cursor..], at + cursor, depth)
    case NoParse => NoItem(g, n - index, input[cursor..], at + cursor, depth);
    case Parsed(_, width) =>
      assert input[cursor..][width..] == input[cursor + width..];
      OneItem(g, n - index, input[cursor..], at + cursor, depth, width);
      ItemsAppend(g, index, input, at, depth, cursor, width);
  }

  lemma NoItem(g: Grammar, n: nat, input: seq<byte>, at: nat, depth: nat)
    requires n > 0 && ParseRoot(g, input, at, depth) == NoParse
    ensures ParseItems(g, n, input, at, depth) == NoParse
  {
    hide ParseRoot;
  }

  lemma {:induction false} ItemsAppend(g: Grammar, n: nat, input: seq<byte>, at: nat, depth: nat, cursor: nat, width: nat)
    requires cursor <= |input| && ParseItems(g, n, input, at, depth).Extent() == Some(cursor)
    requires ParseRoot(g, input[cursor..], at + cursor, depth).Extent() == Some(width)
    ensures ParseItems(g, n + 1, input, at, depth).Extent() == Some(cursor + width)
    decreases n
  {
    hide ParseRoot, ParseItems;
    if n == 0 {
      assert input[0..] == input;
      ItemsDone(g, input, at, depth, 0);
      ItemsDone(g, input, at, depth, width);
      OneItem(g, 1, input, at, depth, width);
    } else {
      FirstParsed(g, n, input, at, depth);
      var end := ParseRoot(g, input, at, depth).end;
      OneItem(g, n, input, at, depth, end);
      assert input[end..][cursor - end..] == input[cursor..];
      ItemsAppend(g, n - 1, input[end..], at + end, depth, cursor - end, width);
      OneItem(g, n + 1, input, at, depth, end);
    }
  }

  lemma FirstParsed(g: Grammar, n: nat, input: seq<byte>, at: nat, depth: nat)
    requires n > 0 && ParseItems(g, n, input, at, depth).Parsed?
    ensures ParseRoot(g, input, at, depth).Parsed? && ParseRoot(g, input, at, depth).end <= |input|
  {
    hide ParseRoot;
  }

  /** On tiled items replay finds the tile. */
  lemma ReplayOfTiling(g: Grammar, w: seq<nat>, input: seq<byte>, at: nat, depth: nat, i: nat)
    requires Tiling(g, w, input, at, depth) && i < |w|
    ensures ParseItems(g, i + 1, input, at, depth).Extent() == Some(Start(w, i + 1))
    ensures ParseItems(g, i, input, at, depth).Extent() == Some(Start(w, i))
  {
    hide ParseRoot;
    TilingPrefix(g, w, i, input, at, depth);
    TilingPrefix(g, w, i + 1, input, at, depth);
    ItemsAfterTiling(g, i, w[..i], input, at, depth);
    ItemsAfterTiling(g, i + 1, w[..i + 1], input, at, depth);
    StartPrefix(w[..i], w, i);
    StartPrefix(w[..i + 1], w, i + 1);
  }

  // ----- the array view -----

  /** A facade over the exact span of `count` items and its retained geometry. */
  datatype ArrayView = ArrayView(g: Grammar, input: seq<byte>, count: nat, offset: nat, depth: RecursiveDepth, geometry: Geometry)

  /** What parent framing leaves in every view: the span is the exact concatenation of the
      items; the geometry describes their widths or is a table of shapes. */
  ghost predicate Retained(v: ArrayView, w: seq<nat>)
    reads v.geometry, v.geometry.storage
  {
    && v.g.selector.width > 0 && LocalGrammar(v.g)
    && v.offset + |v.input| <= USIZE_MAX && v.count == |w| && Tiles(w, |v.input|)
    && Tiling(v.g, w, v.input, v.offset, v.depth.remaining)
    && v.geometry.Valid()
    && var s, meta := v.geometry.storage[..], v.geometry.meta;
       if v.geometry.kind.RecursiveShape? then ShapeTable(s, meta[0]) && meta[1] == ShapeCycle(s, meta[0])
       else Describes(v.geometry.kind, meta, s, w)
  }

  /** The geometry describes the widths, whatever its kind. */
  ghost predicate Validated(v: ArrayView, w: seq<nat>)
    reads v.geometry, v.geometry.storage
  {
    Retained(v, w) && Describes(v.geometry.kind, v.geometry.meta, v.geometry.storage[..], w)
  }

  /** What lookup finds: the item, or what the table of shapes says. */
  ghost function Located(v: ArrayView, w: seq<nat>, requested: nat): Lookup
    requires Retained(v, w)
    reads v.geometry, v.geometry.storage
  {
    if requested >= v.count then Ok(None)
    else if v.geometry.kind.RecursiveShape?
    then ShapeRange(v.geometry.storage[..], v.geometry.meta[0], v.geometry.meta[1], requested, |v.input|)
    else Ok(Some(ItemRange(w, requested)))
  }

  /** Lookup finds every item exactly when the geometry describes the widths. */
  lemma LocatedExactly(v: ArrayView, w: seq<nat>)
    requires Retained(v, w)
    ensures (forall i: nat :: i < v.count ==> Located(v, w, i) == Ok(Some(ItemRange(w, i)))) <==> Validated(v, w)
  {
    hide Tiling, ShapeRange, ShapeDescribes, LocalGrammar;
    var s, meta := v.geometry.storage[..], v.geometry.meta;
    if v.geometry.kind.RecursiveShape? {
      ShapeRangeExact(s, meta[0], meta[1], w, |v.input|);
      forall i: nat | i < v.count ensures Located(v, w, i) == ShapeRange(s, meta[0], meta[1], i, |v.input|) {
      }
    }
  }

  /** Where item `requested` lies, through whichever encoding was retained. */
  method Span(v: ArrayView, requested: usize, ghost w: seq<nat>) returns (r: Lookup)
    requires Retained(v, w)
    ensures r == Located(v, w, requested)
    ensures Validated(v, w) && requested < v.count ==> r == Ok(Some(ItemRange(w, requested)))
  {
    if requested >= v.count {
      return Ok(None);
    }
    if Validated(v, w) {
      LocatedExactly(v, w);
    }
    var meta, s := v.geometry.meta, v.geometry.storage[..];
    var available := |v.input|;
    match v.geometry.kind {
      case Replay =>
        r := ReplaySpan(v.g, v.input, v.offset, v.depth, requested);
        ReplayOfTiling(v.g, w, v.input, v.offset, v.depth.remaining, requested);
      case Fixed =>
        FixedSpanExact(meta[0], w, requested, available);
        r := FixedSpan(meta[0], requested, available);
      case Formula =>
        FormulaSpanExact(meta[0], AsI32(meta[1]), w, requested, available);
        r := FormulaSpan(meta[0], AsI32(meta[1]), requested, available);
      case Interval => r := IntervalSpan(s, meta[0], requested, available, w);
      case Ranked => r := RankedSpan(s, requested, available, w);
      case Factorized => r := FactorizedSpan(s, meta[0], requested, available, w);
      case RecursiveShape => r := ShapeSpan(s, meta[0], meta[1], requested, available);
      case Periodic => r := PeriodicSpan(s, meta[0], meta[1], meta[2], requested, available, w);
      case PackedRuns => r := PackedSpan(s, meta[1], requested, available, w);
    }
  }

  /** Framing item `i` panics: it is itself an array the builder panics on. */
  ghost predicate TilePanics(g: Grammar, w: seq<nat>, input: seq<byte>, at: nat, depth: nat, i: nat)
    requires i < |w| && Start(w, i) <= |input|
  {
    RootPanics(g, input[Start(w, i)..], at + Start(w, i), depth)
  }

  /** What framing the range that lookup found gives. */
  ghost predicate GetAgrees(v: ArrayView, located: Lookup, r: Completion<Lookup>) {
    if located.Err? || located.value.None? then r == Returned(located)
    else
      var Range(start, end) := located.value.value;
      && start <= end <= |v.input|
      && var item := v.input[start..end];
         if RootPanics(v.g, item, v.offset + start, v.depth.remaining) then r.Panicked?
         else if ParseRoot(v.g, item, v.offset + start, v.depth.remaining).Extent() == Some(|item|) then r == Returned(located)
         else r.Returned? && r.value.Err?
  }

  /** One recursive root by ordinal: the span that lookup found, framed again as one item.
      The item itself is never returned at another span. */
  method Get(v: ArrayView, requested: usize, ghost w: seq<nat>) returns (r: Completion<Lookup>)
    requires Retained(v, w)
    ensures GetAgrees(v, Located(v, w, requested), r)
    ensures requested < v.count && Located(v, w, requested) == Ok(Some(ItemRange(w, requested))) ==>
              && Start(w, requested) <= |v.input|
              && r == if TilePanics(v.g, w, v.input, v.offset, v.depth.remaining, requested) then Panicked
                      else Returned(Ok(Some(ItemRange(w, requested))))
    ensures Validated(v, w) ==>
              if requested >= v.count then r == Returned(Ok(None))
              else
                && Start(w, requested) <= |v.input|
                && r == if TilePanics(v.g, w, v.input, v.offset, v.depth.remaining, requested) then Panicked
                        else Returned(Ok(Some(ItemRange(w, requested))))
  {
    hide ParseRoot, RootPanics, Start, LocalGrammar, Tiling;
    if Validated(v, w) {
      LocatedExactly(v, w);
    }
    var found := Span(v, requested, w);
    if requested < v.count {
      ItemFramed(v.g, w, v.input, v.offset, v.depth.remaining, requested);
    }
    match found {
      case Err(error) => return Returned(Err(error));
      case Ok(None) => return Returned(Ok(None));
      case Ok(Some(range)) =>
        RangeWithin(v, w, requested);
        var absolute: nat := v.offset + range.start;
        match Enter(v.depth, absolute) {
          case Err(source) => return Returned(Err(Item(requested, source)));
          case Ok(bodyDepth) =>
            var item := v.input[range.start..range.end];
            var available: nat := |item|;
            var frame := FrameRoot(v.g, item, absolute, bodyDepth);
            match frame {
              case Panicked => r := Panicked;
              case Returned(Err(source)) => r := Returned(Err(Item(requested, source)));
              case Returned(Ok(consumed)) =>
                if consumed != available {
                  return Returned(Err(InvalidExtent(requested, consumed, available)));
                }
                r := Returned(Ok(Some(range)));
            }
        }
    }
  }

  lemma NoDepthLeft(g: Grammar, item: seq<byte>, at: nat)
    ensures !RootPanics(g, item, at, 0) && ParseRoot(g, item, at, 0).NoParse?
  {
  }

  /** A range that lookup finds lies in the span. */
  lemma RangeWithin(v: ArrayView, w: seq<nat>, requested: nat)
    requires Retained(v, w) && Located(v, w, requested).Ok? && Located(v, w, requested).value.Some?
    ensures var range := Located(v, w, requested).value.value; range.start <= range.end <= |v.input|
  {
    hide Tiling, ShapeCycle, ShapeWidth, LocalGrammar;
    if !v.geometry.kind.RecursiveShape? {
      StartNext(w, requested);
      StartMonotone(w, requested + 1, |w|);
    }
  }

  // ----- which items panic -----

  lemma {:induction false} MeasuresLocal(g: Grammar, n: nat, x: seq<byte>, y: seq<byte>, at: nat, depth: nat)
    requires LocalGrammar(g) && ParseItems(g, n, x, at, depth).Parsed? && Shares(x, y, ParseItems(g, n, x, at, depth).end)
    ensures MeasuresOf(g, n, x, at, depth) == MeasuresOf(g, n, y, at, depth)
    ensures Readable(g, n, x, at, depth) == Readable(g, n, y, at, depth)
    decreases n
  {
    hide ParseRoot, LocalGrammar, MeasureOf, MeasuresOf, Readable;
    NoMeasures(g, x, at, depth);
    NoMeasures(g, y, at, depth);
    if n > 0 {
      var total, end := ParseItems(g, n, x, at, depth).end, ParseRoot(g, x, at, depth).end;
      SharesSlice(x, y, total, 0, end);
      assert x[0..] == x && y[0..] == y;
      RootLocal(g, x, y, at, depth);
      OneMeasure(g, n, x, at, depth);
      OneMeasure(g, n, y, at, depth);
      SharesSlice(x, y, total, end, total);
      MeasuresLocal(g, n - 1, x[end..], y[end..], at + end, depth);
    }
  }

  lemma NoMeasures(g: Grammar, input: seq<byte>, at: nat, depth: nat)
    ensures MeasuresOf(g, 0, input, at, depth) == [] && Readable(g, 0, input, at, depth) == 0
  {
  }

  lemma BodyPanicsLocal(g: Grammar, body: Body, x: seq<byte>, y: seq<byte>, at: nat, depth: nat)
    requires body.ArrayBody? && LocalGrammar(g) && ParseBody(g, body, x, at, depth).Parsed?
    requires Shares(x, y, ParseBody(g, body, x, at, depth).end)
    ensures BodyPanics(g, body, x, at, depth) <==> BodyPanics(g, body, y, at, depth)
  {
    hide ParseItems, LocalGrammar, MeasuresOf, Readable, PanicsBefore;
    var total, w := ParseBody(g, body, x, at, depth).end, body.count.width;
    SharesSlice(x, y, total, 0, w);
    SharesSlice(x, y, total, w, total);
    assert x[0..w] == x[..w] && y[0..w] == y[..w];
    MeasuresLocal(g, DecodeScalar(body.count, x[..w]), x[w..], y[w..], at + w, depth);
  }

  /** Whether framing a root that reads panics depends on its own bytes. */
  lemma RootPanicsLocal(g: Grammar, x: seq<byte>, y: seq<byte>, at: nat, depth: nat)
    requires LocalGrammar(g) && ParseRoot(g, x, at, depth).Parsed? && Shares(x, y, ParseRoot(g, x, at, depth).end)
    ensures RootPanics(g, x, at, depth) <==> RootPanics(g, y, at, depth)
  {
    hide ParseBody, BodyPanics, LocalGrammar;
    var total, w := ParseRoot(g, x, at, depth).end, g.selector.width;
    SharesSlice(x, y, total, 0, w);
    SharesSlice(x, y, total, w, total);
    assert x[0..w] == x[..w] && y[0..w] == y[..w];
    var body := g.variants[DecodeUnsigned(g.selector.endian, x[..w])];
    if body.ArrayBody? {
      BodyPanicsLocal(g, body, x[w..], y[w..], at + w, depth - 1);
    } else {
      OnlyArraysPanic(g, body, x[w..], at + w, depth - 1);
      OnlyArraysPanic(g, body, y[w..], at + w, depth - 1);
    }
  }

  lemma OnlyArraysPanic(g: Grammar, body: Body, input: seq<byte>, at: nat, depth: nat)
    requires !body.ArrayBody?
    ensures !BodyPanics(g, body, input, at, depth)
  {
  }

  /** The exact span of a tile frames as one root, all of it, and panics as the tile does. */
  lemma ItemFramed(g: Grammar, w: seq<nat>, input: seq<byte>, at: nat, depth: nat, i: nat)
    requires LocalGrammar(g) && Tiling(g, w, input, at, depth) && i < |w|
    ensures Start(w, i) <= Start(w, i + 1) <= |input|
    ensures depth > 0
    ensures ParseRoot(g, input[Start(w, i)..Start(w, i + 1)], at + Start(w, i), depth).Extent() == Some(w[i])
    ensures Start(w, i + 1) - Start(w, i) == w[i]
    ensures RootPanics(g, input[Start(w, i)..Start(w, i + 1)], at + Start(w, i), depth) <==> TilePanics(g, w, input, at, depth, i)
  {
    hide LocalGrammar, RootPanics;
    assert TileAt(g, w, input, at, depth, i);
    StartNext(w, i);
    var suffix, item := input[Start(w, i)..], input[Start(w, i)..Start(w, i + 1)];
    ExactSpan(g, suffix, at + Start(w, i), depth);
    assert suffix[..w[i]] == item;
    assert item[..w[i]] == item;
    RootPanicsLocal(g, suffix, item, at + Start(w, i), depth);
  }

  // ----- the forward iterator -----

  /** Forward iterator with one physical cursor. */
  class ArrayIter {
    const g: Grammar
    const input: seq<byte>
    const count: nat
    const offset: nat
    const depth: RecursiveDepth
    var index: nat
    var cursor: nat
    var failed: bool

    ghost predicate Valid()
      reads this
    {
      g.selector.width > 0 && offset + |input| <= USIZE_MAX && index <= count && cursor <= |input|
    }

    /** The iterator stands before item `index` of a tiled span. */
    ghost predicate Before(w: seq<nat>)
      reads this
    {
      && Valid() && !failed && count == |w| && cursor == Start(w, index) && Start(w, count) == |input|
      && Tiling(g, w, input, offset, depth.remaining)
    }

    constructor (v: ArrayView)
      requires v.g.selector.width > 0 && v.offset + |v.input| <= USIZE_MAX
      ensures Valid() && !failed && index == 0 && cursor == 0
      ensures g == v.g && input == v.input && count == v.count && offset == v.offset && depth == v.depth
    {
      g, input, count, offset, depth := v.g, v.input, v.count, v.offset, v.depth;
      index, cursor, failed := 0, 0, false;
    }

    /** Frames one more root, reports trailing bytes after the last, and stays ended
        after the first failure. */
    method Next() returns (r: Completion<Option<Result<Range, ItemError>>>)
      requires Valid()
      modifies this
      ensures Valid()
      ensures old(failed) ==> r == Returned(None) && failed && index == old(index) && cursor == old(cursor)
      ensures !old(failed) && old(index) == count ==>
                && index == old(index) && cursor == old(cursor)
                && failed == (cursor < |input|)
                && r == if cursor == |input| then Returned(None)
                        else Returned(Some(Err(Trailing(SaturatingAdd(offset, cursor), |input| - cursor))))
      ensures !old(failed) && old(index) < count ==>
                if RootPanics(g, input[old(cursor)..], offset + old(cursor), depth.remaining) then r.Panicked?
                else
                  match ParseRoot(g, input[old(cursor)..], offset + old(cursor), depth.remaining)
                  case NoParse =>
                    r.Returned? && r.value.Some? && r.value.value.Err? && failed && index == old(index) && cursor == old(cursor)
                  case Parsed(_, n) =>
                    && r == Returned(Some(Ok(Range(old(cursor), old(cursor) + n)))) && !failed
                    && index == old(index) + 1 && cursor == old(cursor) + n
    {
      hide ParseRoot, RootPanics;
      if failed {
        return Returned(None);
      }
      if index == count {
        if cursor == |input| {
          return Returned(None);
        }
        failed := true;
        return Returned(Some(Err(Trailing(SaturatingAdd(offset, cursor), |input| - cursor))));
      }
      var absolute: nat := offset + cursor;
      var available: nat := |input| - cursor;
      match Enter(depth, absolute) {
        case Err(source) =>
          NoDepthLeft(g, input[cursor..], absolute);
          failed := true;
          return Returned(Some(Err(Item(index, source))));
        case Ok(bodyDepth) =>
          RootWidth(g, input[cursor..], absolute, depth.remaining);
          var frame := FrameRoot(g, input[cursor..], absolute, bodyDepth);
          match frame {
            case Panicked => return Panicked;
            case Returned(Err(source)) =>
              failed := true;
              return Returned(Some(Err(Item(index, source))));
            case Returned(Ok(consumed)) =>
              failed := consumed == 0 || consumed > available;
              if failed {
                return Returned(Some(Err(InvalidExtent(index, consumed, available))));
              }
              var start := cursor;
              cursor := cursor + consumed;
              index := index + 1;
              return Returned(Some(Ok(Range(start, cursor))));
          }
      }
    }

    /** On a validated span the iterator yields the tiles in order, then ends; it panics
        at the first tile that does. */
    method NextTile(ghost w: seq<nat>) returns (r: Completion<Option<Result<Range, ItemError>>>)
      requires Before(w)
      modifies this
      ensures if old(index) == count then r == Returned(None) && Before(w) && index == old(index)
              else
                && Start(w, old(index)) <= |input|
                && if TilePanics(g, w, input, offset, depth.remaining, old(index)) then r.Panicked?
                   else r == Returned(Some(Ok(ItemRange(w, old(index))))) && Before(w) && index == old(index) + 1
    {
      hide RootPanics, ParseRoot;
      if index < count {
        assert TileAt(g, w, input, offset, depth.remaining, index);
        StartNext(w, index);
      }
      r := Next();
    }
  }

  lemma ViewFacts(v: ArrayView, w: seq<nat>)
    requires Validated(v, w)
    ensures Retained(v, w) && Tiling(v.g, w, v.input, v.offset, v.depth.remaining) && Start(w, |w|) == |v.input| && v.count == |w| <= USIZE_MAX
    ensures v.g.selector.width > 0 && v.offset + |v.input| <= USIZE_MAX
  {
  }

  /** The iterator goes over the items of this view. */
  ghost predicate Walks(walker: ArrayIter, v: ArrayView, w: seq<nat>)
    reads walker
  {
    && walker.Before(w) && walker.g == v.g && walker.input == v.input && walker.count == v.count
    && walker.offset == v.offset && walker.depth == v.depth
  }

  /** One step of both traversals. */
  method StepBoth(walker: ArrayIter, v: ArrayView, ghost w: seq<nat>) returns (r: Completion<(Range, Range)>)
    requires Validated(v, w) && Walks(walker, v, w) && walker.index < v.count
    modifies walker
    ensures Start(w, old(walker.index)) <= |v.input|
    ensures if TilePanics(v.g, w, v.input, v.offset, v.depth.remaining, old(walker.index)) then r.Panicked?
            else
              && r == Returned((ItemRange(w, old(walker.index)), ItemRange(w, old(walker.index))))
              && Walks(walker, v, w) && walker.index == old(walker.index) + 1
  {
    hide TilePanics, Located, Validated, ItemRange, Tiling, GetAgrees, Retained;
    assert Retained(v, w) && v.count <= USIZE_MAX by { ViewFacts(v, w); }
    var i := walker.index;
    var next := walker.NextTile(w);
    if next.Panicked? {
      return Panicked;
    }
    var item := Get(v, i, w);
    r := Returned((next.value.value.value, item.value.value.value));
  }

  /** Walks an array both ways, as a caller that compares the two would. Both give the
      same items, up to the first item that panics. */
  method WalkBoth(v: ArrayView, ghost w: seq<nat>)
    returns (completed: bool, sequential: seq<Range>, random: seq<Range>, pastEnd: Lookup)
    requires Validated(v, w)
    ensures sequential == random && |sequential| <= v.count
    ensures forall i :: 0 <= i < |sequential| ==>
              && sequential[i] == ItemRange(w, i) && Start(w, i) <= |v.input|
              && !TilePanics(v.g, w, v.input, v.offset, v.depth.remaining, i)
    ensures completed <==> |sequential| == v.count
    ensures completed ==> pastEnd == Ok(None)
    ensures !completed ==>
              Start(w, |sequential|) <= |v.input| && TilePanics(v.g, w, v.input, v.offset, v.depth.remaining, |sequential|)
  {
    hide TilePanics, Located, Validated, ItemRange, Tiling, GetAgrees, Retained, Start;
    ViewFacts(v, w);
    var walker := new ArrayIter(v);
    assert Start(w, 0) == 0 by { StartZero(w); }
    sequential, random, pastEnd := [], [], Ok(None);
    var i: nat := 0;
    while i < v.count
      invariant i <= v.count && Walks(walker, v, w) && walker.index == i
      invariant |sequential| == i && sequential == random
      invariant forall k :: 0 <= k < i ==>
                  && sequential[k] == ItemRange(w, k) && Start(w, k) <= |v.input|
                  && !TilePanics(v.g, w, v.input, v.offset, v.depth.remaining, k)
    {
      var both := StepBoth(walker, v, w);
      if both.Panicked? {
        return false, sequential, random, pastEnd;
      }
      sequential := sequential + [both.value.0];
      random := random + [both.value.1];
      i := i + 1;
    }
    var last := Get(v, i, w);
    pastEnd := last.value;
    completed := true;
  }

  // ----- the view over a framed array -----

  /** The view over a framed array. Lookup finds the items that iteration yields, all of
      them, exactly when no shape was kept wrongly; a kept shape first misses the first
      item that does not have the width of the one it repeats. */
  lemma FramedView(g: Grammar, input: seq<byte>, count: nat, offset: nat, depth: RecursiveDepth, geometry: Geometry)
    requires g.selector.width > 0 && LocalGrammar(g) && offset + |input| <= USIZE_MAX && count <= U32_MAX
    requires var m := MeasuresOf(g, count, input, offset, depth.remaining);
             Start(WidthsOf(m), count) <= |input| && Observed(g, m, input, offset, depth.remaining, geometry)
    ensures var m := MeasuresOf(g, count, input, offset, depth.remaining);
            var w := WidthsOf(m);
            var v := ArrayView(g, input[..Start(w, count)], count, offset, depth, geometry);
            && Retained(v, w) && (Validated(v, w) <==> !WrongShape(m))
            && ((forall i: nat :: i < count ==> Located(v, w, i) == Ok(Some(ItemRange(w, i)))) <==> !WrongShape(m))
            && (KeepsShape(m) ==> forall i: nat :: i < count && RepeatsBefore(m, i) ==>
                  (Located(v, w, i) == Ok(Some(ItemRange(w, i))) <==> RepeatsWidth(m, i)))
  {
    hide Tiling, LocalGrammar, MeasuresOf, Describes, WrongShape, KeepsShape, Located, ShapeRetained;
    var m := MeasuresOf(g, count, input, offset, depth.remaining);
    var w := WidthsOf(m);
    var v := ArrayView(g, input[..Start(w, count)], count, offset, depth, geometry);
    TilingExact(g, w, input, offset, depth.remaining);
    assert Tiles(w, |v.input|) by { StartAtLeastCount(w, count); }
    TableOrDescribed(geometry, m);
    LocatedExactly(v, w);
    if KeepsShape(m) {
      forall i: nat | i < count && RepeatsBefore(m, i)
        ensures Located(v, w, i) == Ok(Some(ItemRange(w, i))) <==> RepeatsWidth(m, i)
      {
        LocatedFirst(v, m, i);
      }
    }
  }

  /** The items before `i` all have the width of the item they repeat. */
  ghost predicate RepeatsBefore(m: seq<Measure>, i: nat)
    requires i <= |m|
  {
    |m| >= PERIOD_CAPACITY && forall k: nat :: k < i ==> RepeatsWidth(m, k)
  }

  /** A geometry that does not describe the widths is a kept shape. */
  lemma TableOrDescribed(geometry: Geometry, m: seq<Measure>)
    requires geometry.Valid() && Exact(geometry, m) && (KeepsShape(m) ==> |m| > RANKED_CAPACITY && ShapeRetained(geometry, m))
    ensures var s, meta := geometry.storage[..], geometry.meta;
            if geometry.kind.RecursiveShape? then ShapeTable(s, meta[0]) && meta[1] == ShapeCycle(s, meta[0])
            else Describes(geometry.kind, meta, s, WidthsOf(m))
  {
    hide Tried, Alive, Irregular, RepeatsWidth, ShapeTable, ShapeCycle;
  }

  lemma LocatedFirst(v: ArrayView, m: seq<Measure>, i: nat)
    requires Retained(v, WidthsOf(m)) && |m| > RANKED_CAPACITY && ShapeRetained(v.geometry, m) && i < |m| && RepeatsBefore(m, i)
    ensures Located(v, WidthsOf(m), i) == Ok(Some(ItemRange(WidthsOf(m), i))) <==> RepeatsWidth(m, i)
  {
    hide Tiling, LocalGrammar, ShapeRange, ShapePeriod, ShapeCycle, ShapeWidth;
    var s, meta, w := v.geometry.storage[..], v.geometry.meta, WidthsOf(m);
    forall k: nat | k <= i ensures ShapeDescribes(s, meta[0], w, k) <==> RepeatsWidth(m, k) {
      assert k % meta[0] < meta[0];
    }
    ShapeRangeFirst(s, meta[0], meta[1], w, i, |v.input|);
  }
}
