/** Direct framing of arrays and roots: every item of a counted array is measured and
    observed, a geometry is chosen and retained. It agrees with the reference reading but
    where the geometry builder panics. */
module RecursiveExtent {
  import opened Base
  import opened Errors
  import opened Widths
  import opened Grammar
  import opened GeometryStorage
  import opened GeometryLookup
  import opened GeometryRuns
  import opened GeometryShape
  import opened GeometryBuild
  import opened RecursiveGeometry
  import opened RecursiveSignature
  import opened RecursiveSteps
  import opened RecursiveMachine
  import opened RecursiveFrames

  /** Items from the start of `input` tile it and the geometry describes them, but for a
      shape that is kept wrongly. */
  ghost predicate Observed(g: Grammar, m: seq<Measure>, input: seq<byte>, offset: nat, depth: nat, geometry: Geometry)
    reads geometry, geometry.storage
  {
    && geometry.Valid() && Tiling(g, WidthsOf(m), input, offset, depth) && Positive(WidthsOf(m)) && Exact(geometry, m)
    && (KeepsShape(m) ==> |m| > RANKED_CAPACITY && ShapeRetained(geometry, m))
    && (!AllNarrow(m, |m|) ==> geometry.kind.Replay?)
  }

  /** Measures and observes the items of one counted array. The process panics as soon as
      an item is observed for which the period of the recursive shape was never set.
      Otherwise framing fails exactly when some item does not read. */
  method FrameRecursiveArrayExtent(g: Grammar, input: seq<byte>, count: nat, offset: nat, depth: RecursiveDepth, geometry: Geometry)
    returns (r: Completion<Result<nat, ItemError>>)
    requires offset + |input| <= USIZE_MAX && g.selector.width > 0 && geometry.Valid() && count <= U32_MAX
    modifies geometry, geometry.storage
    ensures geometry.Valid()
    ensures var m := MeasuresOf(g, count, input, offset, depth.remaining);
            if PanicsBefore(m, Readable(g, count, input, offset, depth.remaining)) then r.Panicked?
            else
              match ParseItems(g, count, input, offset, depth.remaining)
              case NoParse => r.Returned? && r.value.Err?
              case Parsed(_, end) =>
                r == Returned(Ok(end)) && Start(WidthsOf(m), count) == end && Observed(g, m, input, offset, depth.remaining, geometry)
  {
    hide ParseRoot, ParseItems, MeasuredTo, MeasureOf, Start, Tiling, MeasuresOf, Readable, PanicsAt, PanicsBefore, Exact, KeepsShape, AllNarrow, WidthsOf, ShapeRetained,
         SummaryKept, FixedKept, AffineKept, Walking, Walked, ShapeWalked;
    ghost var all := MeasuresOf(g, count, input, offset, depth.remaining);
    var builder := new GeometryBuilder();
    builder.Prepare(geometry, all, count);
    var m: seq<Measure> := [];
    var cursor: nat := 0;
    MeasuredNone(g, count, input, offset, depth.remaining);
    NoneYet(all);
    for index := 0 to count
      invariant index == |m| && fresh(builder) && cursor <= |input|
      invariant MeasuredTo(g, count, m, cursor, input, offset, depth.remaining)
      invariant builder.Observed(geometry, all, index) && !PanicsBefore(all, index)
    {
      var next := MeasureNext(g, input, cursor, index, offset, depth, count, m);
      if next.Err? {
        return Returned(Err(next.error));
      }
      MeasuredStart(g, count, m, cursor, input, offset, depth.remaining);
      var ok := builder.Push(index, cursor, next.value, geometry, all);
      m := m + [next.value];
      cursor := cursor + next.value.consumed;
      MoreReadable(g, count, m, cursor, input, offset, depth.remaining);
      PanicsNext(all, index);
      if !ok {
        return Panicked;
      }
    }
    MeasuredAll(g, m, cursor, input, offset, depth.remaining);
    builder.Complete(all);
    Choose(builder, geometry, m);
    r := Returned(Ok(cursor));
  }

  /** The items measured so far are the first of all, so the cursor is where the next
      one starts. */
  lemma MeasuredStart(g: Grammar, n: nat, m: seq<Measure>, cursor: nat, input: seq<byte>, at: nat, depth: nat)
    requires MeasuredTo(g, n, m, cursor, input, at, depth)
    ensures |m| <= n && cursor == Start(WidthsOf(MeasuresOf(g, n, input, at, depth)), |m|)
  {
    hide ParseRoot, Tiling;
    var all := MeasuresOf(g, n, input, at, depth);
    assert WidthsOf(all)[..|m|] == WidthsOf(m);
    StartPrefix(WidthsOf(m), WidthsOf(all), |m|);
  }

  lemma MoreReadable(g: Grammar, n: nat, m: seq<Measure>, cursor: nat, input: seq<byte>, at: nat, depth: nat)
    requires MeasuredTo(g, n, m, cursor, input, at, depth)
    ensures Readable(g, n, input, at, depth) >= |m|
  {
  }

  lemma NoneYet(m: seq<Measure>)
    ensures !PanicsBefore(m, 0)
  {
  }

  lemma PanicsNext(m: seq<Measure>, n: nat)
    requires n < |m|
    ensures PanicsBefore(m, n + 1) <==> PanicsBefore(m, n) || PanicsAt(m, n)
    ensures forall k: nat :: n < k <= |m| && PanicsAt(m, n) ==> PanicsBefore(m, k)
  {
    hide PanicsAt;
  }

  // ----- panics -----

  /** The body is an array whose count reads and whose items make the builder panic before
      one of them fails to read. */
  ghost predicate BodyPanics(g: Grammar, body: Body, input: seq<byte>, at: nat, depth: nat) {
    && body.ArrayBody? && |input| >= body.count.width
    && var w := body.count.width;
       var n := DecodeScalar(body.count, input[..w]);
       0 <= n <= U32_MAX && PanicsBefore(MeasuresOf(g, n, input[w..], at + w, depth), Readable(g, n, input[w..], at + w, depth))
  }

  /** The root has such a body. Children of objects and demand bodies are only skipped. */
  ghost predicate RootPanics(g: Grammar, input: seq<byte>, at: nat, depth: nat) {
    var w := g.selector.width;
    && depth > 0 && |input| >= w
    && var selector := DecodeUnsigned(g.selector.endian, input[..w]);
       selector in g.variants && BodyPanics(g, g.variants[selector], input[w..], at + w, depth - 1)
  }

  // ----- arrays -----

  /** Retained state of a counted array body: item count, the span of its items and their
      geometry. */
  datatype ArrayFrame = ArrayFrame(count: nat, start: nat, end: nat, geometry: Geometry)

  /** A frame of an array body that reads as `items` and ends at `end`. */
  ghost predicate ArrayFramed(g: Grammar, body: Body, items: nat, end: nat, input: seq<byte>, at: nat, depth: nat, frame: ArrayFrame)
    requires body.ArrayBody?
    reads frame.geometry, frame.geometry.storage
  {
    var start := body.count.width;
    && frame.count == items && frame.start == start <= end == frame.end <= |input|
    && var m := MeasuresOf(g, items, input[start..], at + start, depth);
       Start(WidthsOf(m), items) == end - start && Observed(g, m, input[start..], at + start, depth, frame.geometry)
  }

  function FlattenArrayError(error: ItemError, fallback: nat): RecursiveError {
    match error
    case ShortArray(offset, additional) => NeedMore(offset, additional)
    case Item(_, source) => source
    case InvalidExtent(_, consumed, available) => InvalidFrame(fallback, consumed, available)
    case NonProgress(_, offset) => RecursiveError.Child(offset)
    case Trailing(offset, trailing) => Leftover(offset, trailing)
  }

  /** Frames a counted array: its count through the step form, then every item, with a
      fresh geometry of them. */
  method FrameArray(g: Grammar, body: Body, input: seq<byte>, at: nat, depth: RecursiveDepth)
    returns (r: Completion<Result<ArrayFrame, RecursiveError>>)
    requires body.ArrayBody? && at + |input| <= USIZE_MAX && g.selector.width > 0
    ensures if BodyPanics(g, body, input, at, depth.remaining) then r.Panicked?
            else
              match ParseBody(g, body, input, at, depth.remaining)
              case NoParse => r.Returned? && r.value.Err?
              case Parsed(tree, end) =>
                && tree.ArrayTree? && r.Returned? && r.value.Ok? && fresh(r.value.value.geometry) && fresh(r.value.value.geometry.storage)
                && ArrayFramed(g, body, |tree.items|, end, input, at, depth.remaining, r.value.value)
  {
    hide ParseItems, MeasuresOf, Readable, PanicsBefore, Observed, Start;
    var step := RecursiveStart(body, input, at);
    match step {
      case Err(error) => return Returned(Err(error));
      case Ok(first) =>
        var count: nat := if first.Done? then 0 else first.continuation.n;
        var prefix: nat := first.advance;
        var geometry := new Geometry();
        var consumed := FrameRecursiveArrayExtent(g, input[prefix..], count, at + prefix, depth, geometry);
        if consumed.Panicked? {
          return Panicked;
        }
        match consumed.value {
          case Err(error) => r := Returned(Err(FlattenArrayError(error, at + prefix)));
          case Ok(end) => r := Returned(Ok(ArrayFrame(count, prefix, prefix + end, geometry)));
        }
    }
  }

  // ----- roots -----

  /** Frames one root whose depth level was already entered. */
  method FrameRoot(g: Grammar, input: seq<byte>, at: nat, bodyDepth: RecursiveDepth)
    returns (r: Completion<Result<nat, RecursiveError>>)
    requires at + |input| <= USIZE_MAX && g.selector.width > 0
    ensures if RootPanics(g, input, at, bodyDepth.remaining + 1) then r.Panicked?
            else
              match ParseRoot(g, input, at, bodyDepth.remaining + 1)
              case NoParse => r.Returned? && r.value.Err?
              case Parsed(_, n) => r == Returned(Ok(n))
  {
    hide ParseBody, BodyPanics;
    var w := g.selector.width;
    if |input| < w {
      return Returned(Err(NeedMore(SaturatingAdd(at, |input|), w - |input|)));
    }
    var selector := DecodeUnsigned(g.selector.endian, input[..w]);
    if selector !in g.variants {
      return Returned(Err(UnknownSelector(at)));
    }
    var body := g.variants[selector];
    RootExtent(g, body, input, at, bodyDepth.remaining + 1);
    hide ParseRoot;
    var consumed := FrameBody(g, body, input[w..], at + w, bodyDepth);
    match consumed {
      case Panicked => r := Panicked;
      case Returned(Err(error)) => r := Returned(Err(error));
      case Returned(Ok(n)) =>
        BodyBound(g, body, input[w..], at + w, bodyDepth.remaining);
        r := Returned(Ok(w + n));
    }
  }

  /** Frames one body by its shape. */
  method FrameBody(g: Grammar, body: Body, input: seq<byte>, at: nat, depth: RecursiveDepth)
    returns (r: Completion<Result<nat, RecursiveError>>)
    requires at + |input| <= USIZE_MAX && g.selector.width > 0
    ensures if BodyPanics(g, body, input, at, depth.remaining) then r.Panicked?
            else
              match ParseBody(g, body, input, at, depth.remaining)
              case NoParse => r.Returned? && r.value.Err?
              case Parsed(_, n) => r == Returned(Ok(n))
  {
    hide ParseItems, ParseFields, ParseDemand, Observed, FieldFramed, PanicsBefore, MeasuresOf, Readable;
    match body {
      case UnitBody => r := Returned(Ok(0));
      case LeafBody(frame) =>
        match frame(input, at) {
          case None => r := Returned(Err(RecursiveError.Child(at)));
          case Some(consumed) =>
            r := Returned(if consumed > |input| then Err(InvalidFrame(at, consumed, |input|)) else Ok(consumed));
        }
      case ArrayBody(_) =>
        var frame := FrameArray(g, body, input, at, depth);
        match frame {
          case Panicked => r := Panicked;
          case Returned(Err(error)) => r := Returned(Err(error));
          case Returned(Ok(state)) => r := Returned(Ok(state.end));
        }
      case ObjectBody(fields) =>
        var offsets := FrameObject(g, fields, input, at, depth);
        match offsets {
          case Err(error) => r := Returned(Err(error));
          case Ok(o) =>
            r := Returned(Ok(o[|fields|]));
        }
      case DemandBody(_, _, _, _) =>
        var offsets := FrameDemand(g, body, input, at, depth);
        match offsets {
          case Err(error) => r := Returned(Err(error));
          case Ok(o) =>
            r := Returned(Ok(o[6]));
        }
    }
  }
}
