/** The direct form of every recursive body: one pass that skips each child and keeps
    only boundaries. Boundaries are proved to be those of the reference reading. */
module RecursiveFrames {
  import opened Base
  import opened Errors
  import opened Widths
  import opened Grammar
  import opened RecursiveSteps
  import opened RecursiveSignature
  import opened RecursiveMachine
  import opened Locality

  type ItemError = ArrayError<RecursiveError>

  // ----- consecutive roots -----

  /** Roots of widths `w` lie side by side from the start of `input`. */
  ghost predicate Tiling(g: Grammar, w: seq<nat>, input: seq<byte>, at: nat, depth: nat) {
    forall i: nat :: i < |w| ==> TileAt(g, w, input, at, depth, i)
  }

  ghost predicate TileAt(g: Grammar, w: seq<nat>, input: seq<byte>, at: nat, depth: nat, i: nat)
    requires i < |w|
  {
    && Start(w, i + 1) <= |input|
    && Start(w, i) <= |input|
    && ParseRoot(g, input[Start(w, i)..], at + Start(w, i), depth).Extent() == Some(w[i])
  }

  lemma TilingPrefix(g: Grammar, w: seq<nat>, n: nat, input: seq<byte>, at: nat, depth: nat)
    requires Tiling(g, w, input, at, depth) && n <= |w|
    ensures Tiling(g, w[..n], input, at, depth)
  {
    hide ParseRoot;
    forall i: nat | i < n ensures TileAt(g, w[..n], input, at, depth, i) {
      assert TileAt(g, w, input, at, depth, i);
      StartPrefix(w[..n], w, i);
      StartPrefix(w[..n], w, i + 1);
    }
  }

  lemma TilingExtend(g: Grammar, w: seq<nat>, width: nat, input: seq<byte>, at: nat, depth: nat)
    requires Tiling(g, w, input, at, depth) && Start(w, |w|) + width <= |input|
    requires ParseRoot(g, input[Start(w, |w|)..], at + Start(w, |w|), depth).Extent() == Some(width)
    ensures Tiling(g, w + [width], input, at, depth)
    ensures Start(w + [width], |w| + 1) == Start(w, |w|) + width
  {
    hide ParseRoot;
    var v := w + [width];
    StartPrefix(w, v, |w|);
    forall i: nat | i < |v| ensures TileAt(g, v, input, at, depth, i) {
      if i < |w| {
        assert TileAt(g, w, input, at, depth, i);
        StartPrefix(w, v, i);
        StartPrefix(w, v, i + 1);
      }
    }
  }

  /** Tiled roots are the items that the reference reading reads first. */
  lemma {:induction false} ItemsAfterTiling(g: Grammar, n: nat, w: seq<nat>, input: seq<byte>, at: nat, depth: nat)
    requires Tiling(g, w, input, at, depth) && |w| <= n
    ensures Start(w, |w|) <= |input|
    ensures ParseItems(g, n, input, at, depth).Extent() ==
              Further(Start(w, |w|), ParseItems(g, n - |w|, input[Start(w, |w|)..], at + Start(w, |w|), depth).Extent())
  {
    hide ParseRoot, ParseItems;
    if w == [] {
      assert input[0..] == input;
    } else {
      var last := |w| - 1;
      TilingPrefix(g, w, last, input, at, depth);
      ItemsAfterTiling(g, n, w[..last], input, at, depth);
      StartPrefix(w[..last], w, last);
      assert TileAt(g, w, input, at, depth, last);
      OneItem(g, n - last, input[Start(w, last)..], at + Start(w, last), depth, w[last]);
      assert input[Start(w, last)..][w[last]..] == input[Start(w, |w|)..];
    }
  }

  lemma OneItem(g: Grammar, n: nat, input: seq<byte>, at: nat, depth: nat, width: nat)
    requires n > 0 && width <= |input| && ParseRoot(g, input, at, depth).Extent() == Some(width)
    ensures ParseItems(g, n, input, at, depth).Extent() ==
              Further(width, ParseItems(g, n - 1, input[width..], at + width, depth).Extent())
  {
    hide ParseRoot;
  }

  /** What `n` consecutive roots measure, up to the first that does not read. */
  ghost function MeasuresOf(g: Grammar, n: nat, input: seq<byte>, at: nat, depth: nat): (m: seq<Measure>)
    ensures |m| == n
  {
    if n == 0 then []
    else
      match ParseRoot(g, input, at, depth)
      case NoParse => seq(n, _ => Measure(0, 0, 0))
      case Parsed(tree, end) => [MeasureOf(g.selector, tree, end)] + MeasuresOf(g, n - 1, input[end..], at + end, depth)
  }

  /** How many of them read. */
  ghost function Readable(g: Grammar, n: nat, input: seq<byte>, at: nat, depth: nat): (k: nat)
    ensures k <= n
  {
    if n == 0 then 0
    else
      match ParseRoot(g, input, at, depth)
      case NoParse => 0
      case Parsed(_, end) => 1 + Readable(g, n - 1, input[end..], at + end, depth)
  }

  lemma {:induction false} ReadableAll(g: Grammar, n: nat, input: seq<byte>, at: nat, depth: nat)
    ensures Readable(g, n, input, at, depth) == n <==> ParseItems(g, n, input, at, depth).Parsed?
    decreases n
  {
    hide ParseRoot;
    if n > 0 {
      var root := ParseRoot(g, input, at, depth);
      if root.Parsed? {
        ReadableAll(g, n - 1, input[root.end..], at + root.end, depth);
      }
    }
  }

  /** The first `|m|` of `n` roots measure `m` and end at `cursor`. */
  ghost predicate MeasuredTo(g: Grammar, n: nat, m: seq<Measure>, cursor: nat, input: seq<byte>, at: nat, depth: nat) {
    var widths := WidthsOf(m);
    && |m| <= n && cursor == Start(widths, |m|) <= |input|
    && Tiling(g, widths, input, at, depth) && Positive(widths)
    && MeasuresOf(g, n, input, at, depth) == m + MeasuresOf(g, n - |m|, input[cursor..], at + cursor, depth)
    && Readable(g, n, input, at, depth) == |m| + Readable(g, n - |m|, input[cursor..], at + cursor, depth)
  }

  lemma MeasuredNone(g: Grammar, n: nat, input: seq<byte>, at: nat, depth: nat)
    ensures MeasuredTo(g, n, [], 0, input, at, depth)
  {
    hide ParseRoot, MeasuresOf, Readable;
    assert input[0..] == input;
    assert [] + MeasuresOf(g, n, input, at, depth) == MeasuresOf(g, n, input, at, depth);
    StartZero([]);
  }

  lemma OneMeasure(g: Grammar, n: nat, input: seq<byte>, at: nat, depth: nat)
    requires n > 0 && ParseRoot(g, input, at, depth).Parsed?
    ensures var Parsed(tree, end) := ParseRoot(g, input, at, depth);
            && g.selector.width <= end <= |input| && MeasureOf(g.selector, tree, end).consumed == end
            && MeasuresOf(g, n, input, at, depth) == [MeasureOf(g.selector, tree, end)] + MeasuresOf(g, n - 1, input[end..], at + end, depth)
            && Readable(g, n, input, at, depth) == 1 + Readable(g, n - 1, input[end..], at + end, depth)
  {
    hide ParseRoot, RootTrace;
  }

  /** One more root is measured. */
  lemma MeasuredMore(g: Grammar, n: nat, m: seq<Measure>, cursor: nat, input: seq<byte>, at: nat, depth: nat)
    requires MeasuredTo(g, n, m, cursor, input, at, depth) && |m| < n && g.selector.width > 0
    requires cursor <= |input| && ParseRoot(g, input[cursor..], at + cursor, depth).Parsed?
    ensures var Parsed(tree, end) := ParseRoot(g, input[cursor..], at + cursor, depth);
            var one := MeasureOf(g.selector, tree, end);
            && 0 < end <= |input| - cursor && one.consumed == end
            && MeasuresOf(g, n, input, at, depth)[|m|] == one
            && MeasuredTo(g, n, m + [one], cursor + end, input, at, depth)
  {
    hide ParseRoot, Tiling, Start, MeasuresOf, MeasureOf, Readable, Positive;
    var Parsed(tree, end) := ParseRoot(g, input[cursor..], at + cursor, depth);
    var one := MeasureOf(g.selector, tree, end);
    OneMeasure(g, n - |m|, input[cursor..], at + cursor, depth);
    assert input[cursor..][end..] == input[cursor + end..];
    MeasuredTiles(g, m, one, cursor, input, at, depth);
    MeasuresJoin(m, one, MeasuresOf(g, n - |m| - 1, input[cursor + end..], at + cursor + end, depth));
  }

  lemma MeasuredTiles(g: Grammar, m: seq<Measure>, one: Measure, cursor: nat, input: seq<byte>, at: nat, depth: nat)
    requires cursor == Start(WidthsOf(m), |m|) <= |input| && Tiling(g, WidthsOf(m), input, at, depth) && Positive(WidthsOf(m))
    requires ParseRoot(g, input[cursor..], at + cursor, depth).Extent() == Some(one.consumed) && 0 < one.consumed <= |input| - cursor
    ensures var widths := WidthsOf(m + [one]);
            Start(widths, |m| + 1) == cursor + one.consumed && Tiling(g, widths, input, at, depth) && Positive(widths)
  {
    hide ParseRoot, Tiling, Start;
    TilingExtend(g, WidthsOf(m), one.consumed, input, at, depth);
    assert WidthsOf(m + [one]) == WidthsOf(m) + [one.consumed];
  }

  lemma MeasuresJoin(m: seq<Measure>, one: Measure, rest: seq<Measure>)
    ensures m + ([one] + rest) == m + [one] + rest && (m + [one] + rest)[|m|] == one
  {
  }

  /** The next root does not read. */
  lemma MeasuredStops(g: Grammar, n: nat, m: seq<Measure>, cursor: nat, input: seq<byte>, at: nat, depth: nat)
    requires MeasuredTo(g, n, m, cursor, input, at, depth) && |m| < n
    requires cursor <= |input| && ParseRoot(g, input[cursor..], at + cursor, depth).NoParse?
    ensures Readable(g, n, input, at, depth) == |m| && ParseItems(g, n, input, at, depth).NoParse?
  {
    hide ParseRoot, TileAt, Start, MeasuresOf;
    ReadableAll(g, n, input, at, depth);
    hide ParseItems;
  }

  lemma MeasuredAll(g: Grammar, m: seq<Measure>, cursor: nat, input: seq<byte>, at: nat, depth: nat)
    requires MeasuredTo(g, |m|, m, cursor, input, at, depth)
    ensures m == MeasuresOf(g, |m|, input, at, depth) && Readable(g, |m|, input, at, depth) == |m|
    ensures ParseItems(g, |m|, input, at, depth).Parsed? && ParseItems(g, |m|, input, at, depth).end == cursor
    ensures Start(WidthsOf(m), |m|) == cursor && Tiling(g, WidthsOf(m), input, at, depth) && Positive(WidthsOf(m))
  {
    hide ParseRoot, TileAt, Start;
    var rest := MeasuresOf(g, 0, input[cursor..], at + cursor, depth);
    assert m + rest == m;
    ItemsAfterTiling(g, |m|, WidthsOf(m), input, at, depth);
  }

  /** Measures the next root, if it reads. */
  method MeasureNext(g: Grammar, input: seq<byte>, cursor: nat, index: nat, offset: nat, depth: RecursiveDepth, ghost n: nat, ghost m: seq<Measure>)
    returns (r: Result<Measure, ItemError>)
    requires offset + |input| <= USIZE_MAX && g.selector.width > 0 && index == |m| < n && cursor <= |input|
    requires MeasuredTo(g, n, m, cursor, input, offset, depth.remaining)
    ensures match r
            case Err(_) =>
              Readable(g, n, input, offset, depth.remaining) == |m| && ParseItems(g, n, input, offset, depth.remaining).NoParse?
            case Ok(one) =>
              && cursor + one.consumed <= |input| && MeasuresOf(g, n, input, offset, depth.remaining)[|m|] == one
              && MeasuredTo(g, n, m + [one], cursor + one.consumed, input, offset, depth.remaining)
  {
    hide ParseRoot, ParseItems, MeasuredTo, MeasureOf;
    var absolute: nat := offset + cursor;
    var available: nat := |input| - cursor;
    var measure := Skip(g, input[cursor..], absolute, depth);
    match measure {
      case Err(source) =>
        MeasuredStops(g, n, m, cursor, input, offset, depth.remaining);
        r := Err(Item(index, source));
      case Ok(one) =>
        MeasuredMore(g, n, m, cursor, input, offset, depth.remaining);
        var consumed: nat := one.consumed;
        if consumed == 0 {
          return Err(NonProgress(index, absolute));
        }
        if consumed > available {
          return Err(InvalidExtent(index, consumed, available));
        }
        r := Ok(one);
    }
  }

  /** Frames `count` consecutive roots and reports what each measures. */
  method MeasureAll(g: Grammar, input: seq<byte>, count: nat, offset: nat, depth: RecursiveDepth)
    returns (r: Result<nat, ItemError>, m: seq<Measure>)
    requires offset + |input| <= USIZE_MAX && g.selector.width > 0
    ensures match ParseItems(g, count, input, offset, depth.remaining)
            case NoParse => r.Err?
            case Parsed(_, end) =>
              var widths := WidthsOf(m);
              && r == Ok(end) && |m| == count && Start(widths, count) == end
              && Tiling(g, widths, input, offset, depth.remaining) && Positive(widths)
    ensures r.Ok? ==> m == MeasuresOf(g, count, input, offset, depth.remaining)
  {
    hide ParseRoot, ParseItems, MeasuredTo, Start, Tiling, MeasuresOf, Readable;
    m := [];
    var cursor: nat := 0;
    MeasuredNone(g, count, input, offset, depth.remaining);
    for index := 0 to count
      invariant index == |m| && cursor <= |input| && MeasuredTo(g, count, m, cursor, input, offset, depth.remaining)
    {
      var next := MeasureNext(g, input, cursor, index, offset, depth, count, m);
      if next.Err? {
        return Err(next.error), m;
      }
      m := m + [next.value];
      cursor := cursor + next.value.consumed;
    }
    MeasuredAll(g, m, cursor, input, offset, depth.remaining);
    r := Ok(cursor);
  }

  lemma StartZero(w: seq<nat>)
    ensures Start(w, 0) == 0
  {
  }

  lemma RootWidth(g: Grammar, input: seq<byte>, at: nat, depth: nat)
    ensures var r := ParseRoot(g, input, at, depth).Extent();
            r.Some? ==> g.selector.width <= r.value <= |input|
  {
  }

  // ----- objects -----

  /** Field `i` was read as `parts[i]` between consecutive boundaries. */
  ghost predicate FieldFramed(g: Grammar, fields: seq<ObjectField>, parts: seq<Part>, offsets: seq<nat>,
                              input: seq<byte>, at: nat, depth: nat, i: nat)
    requires i < |fields| == |parts| && |offsets| == |fields| + 1
  {
    && offsets[i] <= offsets[i + 1] <= |input|
    && ParseField(g, fields[i], input[offsets[i]..], at + offsets[i], depth) == Parsed(parts[i], offsets[i + 1] - offsets[i])
  }

  ghost predicate ObjectFramed(g: Grammar, fields: seq<ObjectField>, parts: seq<Part>, offsets: seq<nat>,
                               input: seq<byte>, at: nat, depth: nat)
  {
    && |parts| == |fields| && |offsets| == |fields| + 1 && offsets[0] == 0
    && forall i: nat :: i < |fields| ==> FieldFramed(g, fields, parts, offsets, input, at, depth, i)
  }

  /** The reading of all fields once a prefix of them was read. */
  ghost function FieldsFrom(g: Grammar, fields: seq<ObjectField>, parts: seq<Part>, i: nat, cursor: nat,
                            input: seq<byte>, at: nat, depth: nat): Parsed<seq<Part>>
    requires i <= |fields| && cursor <= |input|
  {
    match ParseFields(g, fields[i..], input[cursor..], at + cursor, depth)
    case NoParse => NoParse
    case Parsed(more, end) => Parsed(parts + more, cursor + end)
  }

  lemma FieldsStep(g: Grammar, fields: seq<ObjectField>, parts: seq<Part>, i: nat, cursor: nat,
                   input: seq<byte>, at: nat, depth: nat)
    requires i < |fields| && cursor <= |input|
    ensures match ParseField(g, fields[i], input[cursor..], at + cursor, depth)
            case NoParse => FieldsFrom(g, fields, parts, i, cursor, input, at, depth) == NoParse
            case Parsed(part, n) =>
              && cursor + n <= |input|
              && FieldsFrom(g, fields, parts, i, cursor, input, at, depth) ==
                   FieldsFrom(g, fields, parts + [part], i + 1, cursor + n, input, at, depth)
  {
    hide ParseField;
    assert fields[i..][1..] == fields[i + 1..];
    match ParseField(g, fields[i], input[cursor..], at + cursor, depth)
    case NoParse =>
    case Parsed(part, n) =>
      assert input[cursor..][n..] == input[cursor + n..];
      match ParseFields(g, fields[i + 1..], input[cursor + n..], at + cursor + n, depth)
      case NoParse =>
      case Parsed(more, _) => assert parts + ([part] + more) == parts + [part] + more;
  }

  lemma FieldsBegin(g: Grammar, fields: seq<ObjectField>, input: seq<byte>, at: nat, depth: nat)
    ensures FieldsFrom(g, fields, [], 0, 0, input, at, depth) == ParseFields(g, fields, input, at, depth)
  {
    hide ParseFields;
    assert fields[0..] == fields && input[0..] == input;
    match ParseFields(g, fields, input, at, depth)
    case NoParse =>
    case Parsed(more, _) => assert [] + more == more;
  }

  lemma FieldsEnd(g: Grammar, fields: seq<ObjectField>, parts: seq<Part>, cursor: nat, input: seq<byte>, at: nat, depth: nat)
    requires cursor <= |input|
    ensures FieldsFrom(g, fields, parts, |fields|, cursor, input, at, depth) == Parsed(parts, cursor)
  {
    assert fields[|fields|..] == [];
    assert parts + [] == parts;
  }

  lemma FramedExtend(g: Grammar, fields: seq<ObjectField>, parts: seq<Part>, offsets: seq<nat>, part: Part, n: nat,
                     input: seq<byte>, at: nat, depth: nat)
    requires |parts| < |fields| && ObjectFramed(g, fields[..|parts|], parts, offsets, input, at, depth)
    requires var cursor := offsets[|parts|];
             cursor + n <= |input|
             && ParseField(g, fields[|parts|], input[cursor..], at + cursor, depth) == Parsed(part, n)
    ensures ObjectFramed(g, fields[..|parts| + 1], parts + [part], offsets + [offsets[|parts|] + n], input, at, depth)
  {
    hide ParseField;
    var k := |parts|;
    var fs, ps, os := fields[..k + 1], parts + [part], offsets + [offsets[k] + n];
    forall i: nat | i < k + 1 ensures FieldFramed(g, fs, ps, os, input, at, depth, i) {
      if i < k {
        assert FieldFramed(g, fields[..k], parts, offsets, input, at, depth, i);
      }
    }
  }

  /** What framing an object gives, against the reference reading: it fails together
      with it, or keeps the boundaries of exactly the parts that were read. */
  ghost predicate ObjectAgrees(g: Grammar, fields: seq<ObjectField>, input: seq<byte>, at: nat, depth: nat,
                               r: Result<seq<nat>, RecursiveError>)
  {
    match ParseFields(g, fields, input, at, depth)
    case NoParse => r.Err?
    case Parsed(parts, end) =>
      r.Ok? && ObjectFramed(g, fields, parts, r.value, input, at, depth) && r.value[|fields|] == end
  }

  /** Frames every field of an object and keeps the boundary before each. */
  method FrameObject(g: Grammar, fields: seq<ObjectField>, input: seq<byte>, at: nat, depth: RecursiveDepth)
    returns (r: Result<seq<nat>, RecursiveError>)
    requires at + |input| <= USIZE_MAX && g.selector.width > 0
    ensures ObjectAgrees(g, fields, input, at, depth.remaining, r)
  {
    hide ParseRoot, FieldsFrom, ParseFields, ObjectFramed;
    var offsets: seq<nat> := [0];
    var cursor: nat := 0;
    var index: nat := 0;
    ghost var parts: seq<Part> := [];
    FieldsBegin(g, fields, input, at, depth.remaining);
    ObjectUnframed(g, input, at, depth.remaining);
    assert fields[..0] == [];
    while index < |fields|
      invariant index <= |fields| && |parts| == index && |offsets| == index + 1
      invariant cursor == offsets[index] <= |input|
      invariant ObjectFramed(g, fields[..index], parts, offsets, input, at, depth.remaining)
      invariant ParseFields(g, fields, input, at, depth.remaining) ==
                  FieldsFrom(g, fields, parts, index, cursor, input, at, depth.remaining)
    {
      FieldsStep(g, fields, parts, index, cursor, input, at, depth.remaining);
      var absolute: nat := at + cursor;
      var available: nat := |input| - cursor;
      var width;
      if fields[index].RecursiveField? {
        var measure := Skip(g, input[cursor..], absolute, depth);
        RootWidth(g, input[cursor..], absolute, depth.remaining);
        match measure {
          case Err(source) => return Err(source);
          case Ok(Measure(consumed, _, _)) =>
            if consumed == 0 {
              return Err(RecursiveError.Child(absolute));
            }
            if consumed > available {
              return Err(InvalidFrame(absolute, consumed, available));
            }
            width := consumed;
        }
      } else {
        width := FieldWidth(fields[index]);
        if available < width {
          return Err(NeedMore(SaturatingAdd(at, |input|), width - available));
        }
      }
      ghost var part := ParseField(g, fields[index], input[cursor..], absolute, depth.remaining).value;
      FramedExtend(g, fields, parts, offsets, part, width, input, at, depth.remaining);
      parts := parts + [part];
      cursor := cursor + width;
      offsets := offsets + [cursor];
      index := index + 1;
    }
    assert fields[..index] == fields;
    FieldsEnd(g, fields, parts, cursor, input, at, depth.remaining);
    r := Ok(offsets);
  }

  lemma ObjectUnframed(g: Grammar, input: seq<byte>, at: nat, depth: nat)
    ensures ObjectFramed(g, [], [], [0], input, at, depth)
  {
  }

  // ----- demand bodies -----

  /** Seven boundaries: start, stored length end, left end, bytes end, scalar start,
      scalar end and right end. */
  ghost predicate DemandFramed(g: Grammar, body: Body, tree: BodyTree, o: seq<nat>, input: seq<byte>, at: nat, depth: nat)
    requires body.DemandBody? && tree.DemandTree?
  {
    && |o| == 7 && o[0] == 0 && o[1] == body.controller.width
    && o[1] <= o[2] <= o[3] <= o[4] <= o[5] <= o[6] <= |input|
    && ParseRoot(g, input[o[1]..], at + o[1], depth) == Parsed(tree.left, o[2] - o[1])
    && o[3] - o[2] == DecodeUnsigned(body.controller.endian, input[..o[1]])
    && tree.tail.bytes == input[o[2]..o[3]]
    && ScalarPosition(o[3], body.pad, body.align) == Some(o[4]) && o[5] == o[4] + body.scalar.width
    && tree.tail.scalar == DecodeScalar(body.scalar, input[o[4]..o[5]])
    && ParseRoot(g, input[o[5]..], at + o[5], depth) == Parsed(tree.tail.right, o[6] - o[5])
  }

  /** What framing a demand body gives, against the reference reading. */
  ghost predicate DemandAgrees(g: Grammar, body: Body, input: seq<byte>, at: nat, depth: nat,
                               r: Result<seq<nat>, RecursiveError>)
    requires body.DemandBody?
  {
    match ParseDemand(g, body, input, at, depth)
    case NoParse => r.Err?
    case Parsed(tree, end) =>
      && r.Ok? && tree.DemandTree?
      && DemandFramed(g, body, tree, r.value, input, at, depth) && r.value[6] == end
  }

  /** Frames a demand body relative to its own start. */
  method FrameDemand(g: Grammar, body: Body, input: seq<byte>, at: nat, depth: RecursiveDepth)
    returns (r: Result<seq<nat>, RecursiveError>)
    requires body.DemandBody? && at + |input| <= USIZE_MAX && g.selector.width > 0
    ensures DemandAgrees(g, body, input, at, depth.remaining, r)
  {
    hide ParseRoot, ParseDemandTail, DemandFramed, TailFramed, TailAgrees;
    var short := SaturatingAdd(at, |input|);
    var controllerEnd := body.controller.width;
    if |input| < controllerEnd {
      return Err(NeedMore(short, controllerEnd - |input|));
    }
    var extent := DecodeUnsigned(body.controller.endian, input[..controllerEnd]);
    var left := Skip(g, input[controllerEnd..], at + controllerEnd, depth);
    match left {
      case Err(source) => return Err(source);
      case Ok(Measure(consumed, _, _)) =>
        RootWidth(g, input[controllerEnd..], at + controllerEnd, depth.remaining);
        var leftEnd := controllerEnd + consumed;
        r := FrameDemandTail(g, body, extent, leftEnd, input, at, depth);
        DemandJoins(g, body, leftEnd, input, at, depth.remaining, r);
    }
  }

  /** The left child and what follows it make the whole body. */
  lemma DemandJoins(g: Grammar, body: Body, leftEnd: nat, input: seq<byte>, at: nat, depth: nat, r: Result<seq<nat>, RecursiveError>)
    requires body.DemandBody? && body.controller.width <= leftEnd <= |input|
    requires var w := body.controller.width;
             ParseRoot(g, input[w..], at + w, depth).Extent() == Some(leftEnd - w)
    requires TailAgrees(g, body, DecodeUnsigned(body.controller.endian, input[..body.controller.width]), leftEnd, input, at, depth, r)
    ensures DemandAgrees(g, body, input, at, depth, r)
  {
    hide ParseRoot, ParseDemandTail;
    var w := body.controller.width;
    if r.Ok? {
      assert r.value[0] == r.value[..3][0] && r.value[1] == r.value[..3][1] && r.value[2] == r.value[..3][2];
    }
  }

  /** What framing after the left child gives, against the reference reading. */
  ghost predicate TailAgrees(g: Grammar, body: Body, extent: nat, leftEnd: nat, input: seq<byte>, at: nat, depth: nat,
                             r: Result<seq<nat>, RecursiveError>)
    requires body.DemandBody? && leftEnd <= |input|
  {
    match ParseDemandTail(g, body, extent, leftEnd, input[leftEnd..], at + leftEnd, depth)
    case NoParse => r.Err?
    case Parsed(tail, end) =>
      && r.Ok? && |r.value| == 7 && r.value[..3] == [0, body.controller.width, leftEnd]
      && TailFramed(g, body, tail, r.value, input, at, depth) && r.value[6] == leftEnd + end
      && r.value[3] == leftEnd + extent
  }

  method FrameDemandTail(g: Grammar, body: Body, extent: nat, leftEnd: nat, input: seq<byte>, at: nat, depth: RecursiveDepth)
    returns (r: Result<seq<nat>, RecursiveError>)
    requires body.DemandBody? && at + |input| <= USIZE_MAX && g.selector.width > 0 && leftEnd <= |input|
    ensures TailAgrees(g, body, extent, leftEnd, input, at, depth.remaining, r)
  {
    hide ParseRoot, Aligned, CheckedAlign, SaturatingAdd, MeasureOf, DecodeScalar;
    var short := SaturatingAdd(at, |input|);
    var bytesEnd := leftEnd + extent;
    if bytesEnd > USIZE_MAX {
      return Err(Layout);
    }
    if bytesEnd > |input| {
      return Err(NeedMore(short, bytesEnd - |input|));
    }
    var placed := CheckedScalarPosition(bytesEnd, body.pad, body.align);
    if placed.None? || placed.value + body.scalar.width > USIZE_MAX {
      return Err(Layout);
    }
    var scalarStart := placed.value;
    var scalarEnd := scalarStart + body.scalar.width;
    if scalarEnd > |input| {
      return Err(NeedMore(short, scalarEnd - |input|));
    }
    var right := Skip(g, input[scalarEnd..], at + scalarEnd, depth);
    SuffixSlices(input, leftEnd, bytesEnd, scalarStart, scalarEnd);
    match right {
      case Err(source) => return Err(source);
      case Ok(Measure(consumed, _, _)) =>
        RootWidth(g, input[scalarEnd..], at + scalarEnd, depth.remaining);
        r := Ok([0, body.controller.width, leftEnd, bytesEnd, scalarStart, scalarEnd, scalarEnd + consumed]);
    }
  }

  lemma SuffixSlices(input: seq<byte>, a: nat, b: nat, c: nat, d: nat)
    requires a <= b <= |input| && a <= c <= d <= |input|
    ensures input[a..][..b - a] == input[a..b]
    ensures input[a..][c - a..d - a] == input[c..d]
    ensures input[a..][d - a..] == input[d..]
  {
  }

  /** Placement with every addition checked against `usize`. */
  function CheckedScalarPosition(bytesEnd: nat, pad: nat, align: Option<nat>): (r: Option<nat>)
    ensures r == if ScalarPosition(bytesEnd, pad, align).Some? && ScalarPosition(bytesEnd, pad, align).value <= USIZE_MAX
                 then ScalarPosition(bytesEnd, pad, align) else None
  {
    if bytesEnd + pad > USIZE_MAX then None
    else
      match align
      case None => Some(bytesEnd + pad)
      case Some(a) => CheckedAlign(bytesEnd + pad, a)
  }

  ghost predicate TailFramed(g: Grammar, body: Body, tail: DemandTail, o: seq<nat>, input: seq<byte>, at: nat, depth: nat)
    requires body.DemandBody? && |o| == 7
  {
    && o[2] <= o[3] <= o[4] <= o[5] <= o[6] <= |input|
    && tail.bytes == input[o[2]..o[3]]
    && ScalarPosition(o[3], body.pad, body.align) == Some(o[4]) && o[5] == o[4] + body.scalar.width
    && tail.scalar == DecodeScalar(body.scalar, input[o[4]..o[5]])
    && ParseRoot(g, input[o[5]..], at + o[5], depth) == Parsed(tail.right, o[6] - o[5])
  }

  // ----- exact spans -----

  /** A tiling of a span only needs the span itself. */
  lemma TilingExact(g: Grammar, w: seq<nat>, input: seq<byte>, at: nat, depth: nat)
    requires LocalGrammar(g) && Tiling(g, w, input, at, depth) && Start(w, |w|) <= |input|
    ensures Tiling(g, w, input[..Start(w, |w|)], at, depth)
  {
    hide ParseRoot, LocalGrammar;
    var total := Start(w, |w|);
    forall i: nat | i < |w| ensures TileAt(g, w, input[..total], at, depth, i) {
      assert TileAt(g, w, input, at, depth, i);
      StartMonotone(w, i, |w|);
      StartMonotone(w, i + 1, |w|);
      var x, y := input[Start(w, i)..], input[..total][Start(w, i)..];
      assert x[..w[i]] == y[..w[i]];
      RootLocal(g, x, y, at + Start(w, i), depth);
    }
  }
}
