/** Two roots of one small grammar: a root is an array of roots with a 16-bit count, or a
    leaf that stores its own length. One makes the walk keep a shape that misses a width,
    so that lookup and iteration differ; the other makes direct framing panic on bytes
    that the driver skips. */
module RecursiveCases {
  import opened Base
  import opened Errors
  import opened Widths
  import opened Grammar
  import opened GeometryStorage
  import opened GeometryLookup
  import opened GeometryRuns
  import opened GeometryShape
  import opened GeometryBuild
  import opened RecursiveGeometry
  import opened RecursiveSignature
  import opened RecursiveMachine
  import opened RecursiveFrames
  import opened RecursiveExtent
  import opened RecursiveArrays
  import opened Locality

  const LENGTH_BYTES := 8

  /** A stored 64-bit length, then that many bytes. */
  function SizedLeaf(input: seq<byte>, at: nat): Option<nat> {
    if |input| < LENGTH_BYTES then None else Some(LENGTH_BYTES + LittleValue(input[..LENGTH_BYTES]))
  }

  function CountScalar(): Scalar {
    Scalar(2, Little, false)
  }

  function RootArray(): Body {
    ArrayBody(CountScalar())
  }

  function CaseGrammar(): Grammar {
    Grammar(Scalar(1, Little, false), map[0 := RootArray(), 1 := LeafBody(SizedLeaf)])
  }

  function Leaf(n: nat): (bytes: seq<byte>)
    ensures |bytes| == LENGTH_BYTES + n
  {
    LittleBytes(n, LENGTH_BYTES) + Zeros(n)
  }

  /** The body of an array: its count, then its items. */
  function ArrayBytes(count: nat, items: seq<byte>): (bytes: seq<byte>)
    ensures |bytes| == 2 + |items|
  {
    LittleBytes(count, 2) + items
  }

  /** A root that is an array of one leaf of `n` bytes. */
  function OneLeaf(n: nat): (bytes: seq<byte>)
    ensures |bytes| == 4 + LENGTH_BYTES + n
  {
    [0] + ArrayBytes(1, [1] + Leaf(n))
  }

  function OneLeafTree(n: nat): Tree {
    Tree(0, ArrayTree([Tree(1, LeafTree(Leaf(n)))]))
  }

  function LeavesInput(ns: seq<nat>): seq<byte> {
    if ns == [] then [] else OneLeaf(ns[0]) + LeavesInput(ns[1..])
  }

  /** A root that is an array of such roots, and its body. */
  function LeavesBody(ns: seq<nat>): seq<byte> {
    ArrayBytes(|ns|, LeavesInput(ns))
  }

  function LeavesRoot(ns: seq<nat>): seq<byte> {
    [0] + LeavesBody(ns)
  }

  function LeafMeasure(n: nat): Measure {
    MeasureOf(CaseGrammar().selector, OneLeafTree(n), 4 + LENGTH_BYTES + n)
  }

  function LeafMeasures(ns: seq<nat>): (m: seq<Measure>)
    ensures |m| == |ns| && forall i :: 0 <= i < |ns| ==> m[i] == LeafMeasure(ns[i])
  {
    seq(|ns|, i requires 0 <= i < |ns| => LeafMeasure(ns[i]))
  }

  lemma SelectorRead(b: byte, rest: seq<byte>)
    ensures DecodeUnsigned(Little, ([b] + rest)[..1]) == b as nat
  {
    var one: seq<byte> := [b];
    assert ([b] + rest)[..1] == one && one[1..] == [];
    assert LittleValue(one) == one[0] as nat + 256 * LittleValue(one[1..]);
  }

  lemma CountRead(count: nat, items: seq<byte>)
    requires count < 0x1_0000
    ensures DecodeScalar(CountScalar(), ArrayBytes(count, items)[..2]) == count && ArrayBytes(count, items)[2..] == items
  {
    assert ArrayBytes(count, items)[..2] == LittleBytes(count, 2);
    assert Pow256(2) == 0x1_0000;
    LittleRoundTrip(count, 2);
  }

  lemma LeafReads(n: nat, rest: seq<byte>, at: nat, depth: nat)
    requires n <= USIZE_MAX && depth > 0
    ensures ParseRoot(CaseGrammar(), [1] + Leaf(n) + rest, at, depth) == Parsed(Tree(1, LeafTree(Leaf(n))), 1 + LENGTH_BYTES + n)
  {
    var input := [1] + Leaf(n) + rest;
    assert input == [1] + (Leaf(n) + rest);
    SelectorRead(1, Leaf(n) + rest);
    var body := input[1..];
    assert body == Leaf(n) + rest;
    assert body[..LENGTH_BYTES] == LittleBytes(n, LENGTH_BYTES);
    LengthReads(n);
    assert body[..LENGTH_BYTES + n] == Leaf(n);
  }

  lemma LengthReads(n: nat)
    requires n <= USIZE_MAX
    ensures LittleValue(LittleBytes(n, LENGTH_BYTES)) == n
  {
    assert Pow256(4) == 0x1_0000_0000;
    assert Pow256(8) == 256 * 256 * 256 * 256 * Pow256(4);
    LittleRoundTrip(n, LENGTH_BYTES);
  }

  lemma OneLeafReads(n: nat, rest: seq<byte>, at: nat, depth: nat)
    requires n <= USIZE_MAX && depth > 1
    ensures ParseRoot(CaseGrammar(), OneLeaf(n) + rest, at, depth) == Parsed(OneLeafTree(n), 4 + LENGTH_BYTES + n)
  {
    var items, leaf := [1] + Leaf(n) + rest, Tree(1, LeafTree(Leaf(n)));
    var body := ArrayBytes(1, items);
    assert OneLeaf(n) + rest == [0] + body;
    SelectorRead(0, body);
    CountRead(1, items);
    LeafReads(n, rest, at + 3, depth - 1);
    hide ParseRoot, DecodeScalar, DecodeUnsigned, ArrayBytes;
    OneItemReads(items, at + 3, depth - 1, leaf, 1 + LENGTH_BYTES + n);
    ArrayReads(1, items, at + 1, depth - 1, [leaf], 1 + LENGTH_BYTES + n);
    RootReads(body, at, depth, ArrayTree([leaf]), 3 + LENGTH_BYTES + n);
  }

  lemma OneItemReads(items: seq<byte>, at: nat, depth: nat, tree: Tree, end: nat)
    requires ParseRoot(CaseGrammar(), items, at, depth) == Parsed(tree, end)
    ensures ParseItems(CaseGrammar(), 1, items, at, depth) == Parsed([tree], end)
  {
    assert ParseItems(CaseGrammar(), 0, items[end..], at + end, depth) == Parsed([], 0);
    assert [tree] + [] == [tree];
  }

  lemma ArrayReads(count: nat, items: seq<byte>, at: nat, depth: nat, trees: seq<Tree>, end: nat)
    requires count < 0x1_0000 && ParseItems(CaseGrammar(), count, items, at + 2, depth) == Parsed(trees, end)
    ensures ParseBody(CaseGrammar(), RootArray(), ArrayBytes(count, items), at, depth) == Parsed(ArrayTree(trees), 2 + end)
  {
    hide ParseItems, DecodeScalar, ArrayBytes;
    CountRead(count, items);
  }

  lemma RootReads(body: seq<byte>, at: nat, depth: nat, tree: BodyTree, end: nat)
    requires depth > 0 && ParseBody(CaseGrammar(), RootArray(), body, at + 1, depth - 1) == Parsed(tree, end)
    ensures ParseRoot(CaseGrammar(), [0] + body, at, depth) == Parsed(Tree(0, tree), 1 + end)
  {
    hide ParseBody, DecodeUnsigned;
    SelectorRead(0, body);
    assert ([0] + body)[1..] == body;
  }

  lemma NoLeaves(at: nat, depth: nat)
    ensures MeasuresOf(CaseGrammar(), 0, [], at, depth) == [] && Readable(CaseGrammar(), 0, [], at, depth) == 0
  {
  }

  /** The walk over such an array reports these measures. */
  lemma {:induction false} LeavesMeasure(ns: seq<nat>, at: nat, depth: nat)
    requires depth > 1 && forall i :: 0 <= i < |ns| ==> ns[i] <= USIZE_MAX
    ensures MeasuresOf(CaseGrammar(), |ns|, LeavesInput(ns), at, depth) == LeafMeasures(ns)
    ensures Readable(CaseGrammar(), |ns|, LeavesInput(ns), at, depth) == |ns|
    decreases |ns|
  {
    hide ParseRoot, MeasureOf, OneLeafTree, OneLeaf, MeasuresOf, Readable, CaseGrammar;
    NoLeaves(at, depth);
    if ns != [] {
      var rest := LeavesInput(ns[1..]);
      OneLeafReads(ns[0], rest, at, depth);
      var end := |OneLeaf(ns[0])|;
      assert LeavesInput(ns) == OneLeaf(ns[0]) + rest && (OneLeaf(ns[0]) + rest)[end..] == rest;
      OneMeasure(CaseGrammar(), |ns|, LeavesInput(ns), at, depth);
      LeavesMeasure(ns[1..], at + end, depth);
      assert LeafMeasures(ns) == [LeafMeasure(ns[0])] + LeafMeasures(ns[1..]);
    }
  }

  function LeafTrees(ns: seq<nat>): (trees: seq<Tree>)
    ensures |trees| == |ns|
  {
    seq(|ns|, i requires 0 <= i < |ns| => OneLeafTree(ns[i]))
  }

  lemma {:induction false} LeavesRead(ns: seq<nat>, at: nat, depth: nat)
    requires depth > 1 && forall i :: 0 <= i < |ns| ==> ns[i] <= USIZE_MAX
    ensures ParseItems(CaseGrammar(), |ns|, LeavesInput(ns), at, depth) == Parsed(LeafTrees(ns), |LeavesInput(ns)|)
    decreases |ns|
  {
    hide ParseRoot, OneLeafTree, OneLeaf, CaseGrammar;
    if ns != [] {
      var rest := LeavesInput(ns[1..]);
      OneLeafReads(ns[0], rest, at, depth);
      var end := |OneLeaf(ns[0])|;
      assert LeavesInput(ns) == OneLeaf(ns[0]) + rest && (OneLeaf(ns[0]) + rest)[end..] == rest;
      LeavesRead(ns[1..], at + end, depth);
      assert LeafTrees(ns) == [OneLeafTree(ns[0])] + LeafTrees(ns[1..]);
    }
  }

  /** The whole root reads; framing its body or it panics exactly when the items make the
      builder panic. */
  lemma LeavesRootReads(ns: seq<nat>, at: nat, depth: nat)
    requires depth > 2 && |ns| < 0x1_0000 && forall i :: 0 <= i < |ns| ==> ns[i] <= USIZE_MAX
    ensures ParseBody(CaseGrammar(), RootArray(), LeavesBody(ns), at + 1, depth - 1) == Parsed(ArrayTree(LeafTrees(ns)), |LeavesBody(ns)|)
    ensures ParseRoot(CaseGrammar(), LeavesRoot(ns), at, depth) == Parsed(Tree(0, ArrayTree(LeafTrees(ns))), |LeavesRoot(ns)|)
    ensures BodyPanics(CaseGrammar(), RootArray(), LeavesBody(ns), at + 1, depth - 1) <==> PanicsBefore(LeafMeasures(ns), |ns|)
    ensures RootPanics(CaseGrammar(), LeavesRoot(ns), at, depth) <==> PanicsBefore(LeafMeasures(ns), |ns|)
  {
    hide ParseItems, LeavesInput, MeasuresOf, Readable, LeafMeasures, LeafTrees, PanicsBefore, DecodeScalar, DecodeUnsigned, ArrayBytes;
    LeavesRead(ns, at + 3, depth - 1);
    LeavesMeasure(ns, at + 3, depth - 1);
    CountRead(|ns|, LeavesInput(ns));
    ArrayReads(|ns|, LeavesInput(ns), at + 1, depth - 1, LeafTrees(ns), |LeavesInput(ns)|);
    RootReads(LeavesBody(ns), at, depth, ArrayTree(LeafTrees(ns)), |LeavesBody(ns)|);
    SelectorRead(0, LeavesBody(ns));
    assert LeavesRoot(ns)[1..] == LeavesBody(ns);
  }

  /** Item `i` starts where the widths before it end. */
  lemma {:induction false} LeavesAt(ns: seq<nat>, i: nat)
    requires i <= |ns|
    ensures var start := Start(WidthsOf(LeafMeasures(ns)), i);
            start <= |LeavesInput(ns)| && LeavesInput(ns)[start..] == LeavesInput(ns[i..])
  {
    hide LeafMeasure, OneLeaf;
    if i == 0 {
      assert ns[0..] == ns;
    } else {
      var w, last := WidthsOf(LeafMeasures(ns)), i - 1;
      LeavesAt(ns, last);
      StartNext(w, last);
      LeafMeasured(ns[last]);
      var rest := ns[last..];
      assert rest[1..] == ns[i..] && rest[0] == ns[last];
      assert LeavesInput(ns)[Start(w, last)..][|OneLeaf(ns[last])|..] == LeavesInput(ns)[Start(w, i)..];
    }
  }

  /** One item never makes the builder panic. */
  lemma OneLeafNoPanic(ns: seq<nat>, at: nat, depth: nat)
    requires ns != []
    ensures !RootPanics(CaseGrammar(), LeavesInput(ns), at, depth)
  {
    var items := [1] + Leaf(ns[0]) + LeavesInput(ns[1..]);
    Regrouped([0], LittleBytes(1, 2), [1] + Leaf(ns[0]), LeavesInput(ns[1..]));
    OneItemNoPanic(items, at, depth);
  }

  lemma Regrouped(a: seq<byte>, b: seq<byte>, c: seq<byte>, d: seq<byte>)
    ensures a + (b + c) + d == a + (b + (c + d))
  {
  }

  lemma OneItemNoPanic(items: seq<byte>, at: nat, depth: nat)
    ensures !RootPanics(CaseGrammar(), [0] + ArrayBytes(1, items), at, depth)
  {
    hide ArrayBytes, DecodeScalar, DecodeUnsigned, MeasuresOf, Readable, PanicsBefore;
    var body := ArrayBytes(1, items);
    SelectorRead(0, body);
    CountRead(1, items);
    assert ([0] + body)[1..] == body;
    if depth > 0 {
      FewNoPanic(MeasuresOf(CaseGrammar(), 1, body[2..], at + 3, depth - 1), Readable(CaseGrammar(), 1, body[2..], at + 3, depth - 1));
    }
  }

  lemma FewNoPanic(m: seq<Measure>, k: nat)
    requires |m| <= RANKED_CAPACITY && k <= |m|
    ensures !PanicsBefore(m, k)
  {
    hide Alive;
  }

  // ----- what the walk reports of one item -----

  function CaseStart(): Trace {
    Fresh(CaseGrammar().selector)
  }

  lemma LeafMeasured(n: nat)
    ensures var m := LeafMeasure(n);
            && m.consumed == 4 + LENGTH_BYTES + n && m.nestedDepth == 1
            && m.shape == PassLeaf(Deepen(PassStart(CaseStart(), 0), 1), 1, LENGTH_BYTES + n).shape
  {
    hide PassLeaf, PassStart, Deepen, Leaf;
    var leaf, started := Tree(1, LeafTree(Leaf(n))), PassStart(CaseStart(), 0);
    OneItemTrace(leaf, started);
    assert RootTrace(OneLeafTree(n), 0, CaseStart()) == BodyTrace(ArrayTree([leaf]), 1, started);
    assert ChildTrace(leaf, 1, started) == PassLeaf(Deepen(started, 1), 1, LENGTH_BYTES + n);
    NestingKept(Deepen(started, 1), 1, LENGTH_BYTES + n);
    FirstNesting();
  }

  lemma FirstNesting()
    ensures Deepen(PassStart(CaseStart(), 0), 1).nested == 1
  {
  }

  lemma OneItemTrace(item: Tree, t: Trace)
    ensures ItemsTrace([item], 1, t) == ChildTrace(item, 1, t)
  {
    assert [item][1..] == [];
  }

  lemma NestingKept(t: Trace, selector: nat, width: nat)
    ensures PassLeaf(t, selector, width).nested == t.nested
  {
  }

  /** Leaves below 2^28 bytes give one signature, whatever their widths. */
  lemma OneSignature(a: nat, b: nat)
    requires a + LENGTH_BYTES < 0x1000_0000 && b + LENGTH_BYTES < 0x1000_0000
    ensures Signature(LeafMeasure(a)) == Signature(LeafMeasure(b))
  {
    hide PassLeaf, PassStart, Deepen, MeasureOf;
    LeafMeasured(a);
    LeafMeasured(b);
    LeavesAlike(Deepen(PassStart(CaseStart(), 0), 1), 1, LENGTH_BYTES + a, LENGTH_BYTES + b);
  }

  // ----- a shape that misses a width -----

  /** 256 empty leaves, then a leaf of one byte. */
  function Colliding(): seq<nat> {
    seq(257, i => if i == 256 then 1 else 0)
  }

  /** Many nested items of one signature, the first 64 of one width but not all of them. */
  lemma OneShapeMany(m: seq<Measure>, k: nat)
    requires |m| > RANKED_CAPACITY && m[0].nestedDepth != 0 && k < |m| && m[k].consumed != m[0].consumed
    requires forall i :: 0 <= i < |m| ==> Signature(m[i]) == Signature(m[0]) && m[i].consumed < U16_LIMIT
    requires forall i :: 0 <= i < PERIOD_CAPACITY ==> m[i].consumed == m[0].consumed
    ensures WrongShape(m) && !PanicsBefore(m, |m|)
  {
    hide Signature;
    assert Narrow(m[0]);
    forall i: nat | i < |m| ensures Lives(m, i) {
    }
    hide Lives;
    var w := WidthsOf(m);
    assert w[k] != w[0] && w[1] == w[0];
    assert !OnLine(w, k);
    assert !RepeatsWidth(m, k);
  }

  lemma CollidingMeasures()
    ensures var m := LeafMeasures(Colliding());
            && WrongShape(m) && KeepsShape(m) && !PanicsBefore(m, 257)
            && RepeatsBefore(m, 256) && !RepeatsWidth(m, 256)
    ensures |LeavesRoot(Colliding())| <= USIZE_MAX
  {
    hide LeafMeasure, LeavesInput, Signature, KeepsShape, PanicsBefore, RepeatsWidth, RepeatsBefore;
    LeavesLength(Colliding());
    var m := LeafMeasures(Colliding());
    LeafMeasured(0);
    LeafMeasured(1);
    forall i | 0 <= i < |m| ensures Signature(m[i]) == Signature(m[0]) && m[i].consumed == if i == 256 then 13 else 12 {
      OneSignature(Colliding()[i], 0);
    }
    OneShapeMany(m, 256);
    LastDiffers(m);
  }

  lemma LastDiffers(m: seq<Measure>)
    requires |m| == 257 && forall i :: 0 <= i < 257 ==> m[i].consumed == if i == 256 then 13 else 12
    ensures RepeatsBefore(m, 256) && !RepeatsWidth(m, 256)
  {
    hide ShapePeriod;
  }

  lemma CollidingLeaves()
    ensures |Colliding()| == 257 && forall i :: 0 <= i < 257 ==> Colliding()[i] <= 1
  {
  }

  lemma LocalSized()
    ensures LocalLeaf(SizedLeaf)
  {
    hide SizedLeaf;
    forall x: seq<byte>, y: seq<byte>, at: nat |
      SizedLeaf(x, at).Some? && SizedLeaf(x, at).value <= |x| && x[..SizedLeaf(x, at).value] <= y
      ensures SizedLeaf(y, at) == SizedLeaf(x, at)
    {
      SizedAlike(x, y, at);
    }
  }

  lemma SizedAlike(x: seq<byte>, y: seq<byte>, at: nat)
    requires SizedLeaf(x, at).Some? && SizedLeaf(x, at).value <= |x| && x[..SizedLeaf(x, at).value] <= y
    ensures SizedLeaf(y, at) == SizedLeaf(x, at)
  {
    hide LittleValue;
    var n := SizedLeaf(x, at).value;
    assert x[..n][..LENGTH_BYTES] == x[..LENGTH_BYTES] && y[..n] == x[..n];
    assert y[..n][..LENGTH_BYTES] == y[..LENGTH_BYTES];
  }

  lemma LocalCase()
    ensures LocalGrammar(CaseGrammar()) && CaseGrammar().selector.width == 1
  {
    hide LocalLeaf, SizedLeaf;
    LocalSized();
  }

  lemma BodyItems(ns: seq<nat>)
    ensures LeavesBody(ns)[2..] == LeavesInput(ns) && |LeavesBody(ns)| == 2 + |LeavesInput(ns)|
    ensures LeavesInput(ns)[..|LeavesInput(ns)|] == LeavesInput(ns)
  {
  }

  /** Steps through all items and returns the last. */
  method LastTile(v: ArrayView, ns: seq<nat>, ghost w: seq<nat>) returns (last: Range)
    requires ns != [] && Retained(v, w) && v.g == CaseGrammar() && v.input == LeavesInput(ns) && v.count == |ns|
    requires w == WidthsOf(LeafMeasures(ns))
    ensures last == ItemRange(w, v.count - 1)
  {
    hide LeavesInput, CaseGrammar, LeafMeasures, WidthsOf, RootPanics, Tiling, Start, ShapeTable, ShapeCycle, Describes;
    var walker := new ArrayIter(v);
    last := Range(0, 0);
    assert Start(w, 0) == 0 by { StartZero(w); }
    for k := 0 to v.count
      invariant walker.Before(w) && walker.index == k && walker.count == v.count
      invariant walker.g == v.g && walker.input == v.input && walker.offset == v.offset && walker.depth == v.depth
      invariant k > 0 ==> last == ItemRange(w, k - 1)
    {
      LeavesAt(ns, k);
      OneLeafNoPanic(ns[k..], v.offset + Start(w, k), v.depth.remaining);
      var next := walker.NextTile(w);
      last := next.value.value.value;
    }
  }

  /** The view over the items of a root whose body frames. */
  method LeavesView(ns: seq<nat>) returns (v: ArrayView)
    requires |ns| < 0x1_0000 && |LeavesRoot(ns)| <= USIZE_MAX && forall i :: 0 <= i < |ns| ==> ns[i] <= USIZE_MAX
    requires !PanicsBefore(LeafMeasures(ns), |ns|)
    ensures v.g == CaseGrammar() && v.input == LeavesInput(ns) && v.count == |ns| && FirstMiss(v, LeafMeasures(ns))
  {
    hide LeavesInput, KeepsShape, WrongShape, PanicsBefore, LeafMeasures, WidthsOf, MeasuresOf, Observed, Start, BodyPanics,
         ParseBody, CaseGrammar, Located, Retained, RepeatsWidth, RepeatsBefore;
    var depth: RecursiveDepth := DepthBudget(2, 3);
    LeavesRootReads(ns, 0, 3);
    LeavesMeasure(ns, 3, 2);
    LocalCase();
    BodyItems(ns);
    var framed := FrameArray(CaseGrammar(), RootArray(), LeavesBody(ns), 1, depth);
    var frame := framed.value.value;
    FramedView(CaseGrammar(), LeavesInput(ns), |ns|, 3, depth, frame.geometry);
    v := ArrayView(CaseGrammar(), LeavesInput(ns), |ns|, 3, depth, frame.geometry);
  }

  /** A kept shape misses the first item that does not have the width of the one it repeats. */
  ghost predicate FirstMiss(v: ArrayView, m: seq<Measure>)
    reads v.geometry, v.geometry.storage
  {
    var w := WidthsOf(m);
    && Retained(v, w)
    && (KeepsShape(m) ==> forall i: nat :: i < |m| && RepeatsBefore(m, i) ==>
          (Located(v, w, i) == Ok(Some(ItemRange(w, i))) <==> RepeatsWidth(m, i)))
  }

  lemma Missed(v: ArrayView, m: seq<Measure>, i: nat)
    requires FirstMiss(v, m) && KeepsShape(m) && i < |m| && RepeatsBefore(m, i) && !RepeatsWidth(m, i)
    ensures var w := WidthsOf(m); Retained(v, w) && Located(v, w, i) != Ok(Some(ItemRange(w, i)))
  {
    hide KeepsShape, Retained, Located, RepeatsBefore, RepeatsWidth;
  }

  /** Its last item is where iteration says, but lookup does not find it there, nor does
      random access. */
  method LookUpColliding() returns (stepped: Range, found: Lookup, got: Completion<Lookup>)
    ensures stepped == ItemRange(WidthsOf(LeafMeasures(Colliding())), 256)
    ensures found != Ok(Some(stepped)) && got != Returned(Ok(Some(stepped)))
  {
    hide LeavesInput, LeavesRoot, Colliding, KeepsShape, WrongShape, PanicsBefore, LeafMeasures, WidthsOf, Start, CaseGrammar,
         Located, Retained, RepeatsWidth, RepeatsBefore, FirstMiss, TilePanics, ItemRange;
    var ns := Colliding();
    CollidingLeaves();
    CollidingMeasures();
    ghost var m := LeafMeasures(ns);
    ghost var w := WidthsOf(m);
    var v := LeavesView(ns);
    Missed(v, m, 256);
    stepped := LastTile(v, ns, w);
    found := Span(v, 256, w);
    got := Get(v, 256, w);
  }

  lemma {:induction false} LeavesLength(ns: seq<nat>)
    requires forall i :: 0 <= i < |ns| ==> ns[i] <= 0x1_0000_0000
    ensures |LeavesInput(ns)| <= |ns| * 0x1_0000_1000
    decreases |ns|
  {
    if ns != [] {
      LeavesLength(ns[1..]);
    }
  }

  // ----- a walk without a period -----

  /** The 64th of 257 leaves is wider than 32 bits. */
  function Panicking(): seq<nat> {
    seq(257, i => if i == 63 then 0x1_0000_0000 else 0)
  }

  lemma PanickingLeaves()
    ensures |Panicking()| == 257 && forall i :: 0 <= i < 257 ==> Panicking()[i] <= 0x1_0000_0000
  {
  }

  lemma PanickingMeasures()
    ensures PanicsBefore(LeafMeasures(Panicking()), 257) && |LeavesRoot(Panicking())| + 3 <= USIZE_MAX
  {
    hide LeafMeasure, LeavesInput, Signature, PanicsBefore;
    LeavesLength(Panicking());
    LeafMeasured(0);
    LeafMeasured(0x1_0000_0000);
    NoPeriodAfterWide(LeafMeasures(Panicking()));
  }

  /** Nested items that are all alike but for the 64th, which is passed over. */
  lemma NoPeriodAfterWide(m: seq<Measure>)
    requires |m| > RANKED_CAPACITY && m[0].nestedDepth != 0 && m[0].consumed < U16_LIMIT
    requires forall i :: 0 <= i < |m| && i != 63 ==> m[i] == m[0]
    requires !Narrow(m[63])
    ensures PanicsBefore(m, |m|)
  {
    hide Signature;
    assert Narrow(m[0]);
    forall i: nat | i < PERIOD_CAPACITY && Narrow(m[i]) ensures Lives(m, i) {
    }
    hide Lives;
    assert PanicsAt(m, 64);
  }

  lemma PanickingRoot()
    ensures var root := LeavesRoot(Panicking());
            && CaseGrammar().selector.width > 0 && |root| <= USIZE_MAX
            && ParseRoot(CaseGrammar(), root, 0, 3).Parsed? && RootPanics(CaseGrammar(), root, 0, 3)
  {
    hide LeavesInput, Panicking, PanicsBefore, LeafMeasures, ParseRoot, RootPanics, CaseGrammar, LeavesRoot, LeafTrees, ParseBody, BodyPanics;
    PanickingLeaves();
    PanickingMeasures();
    LeavesRootReads(Panicking(), 0, 3);
    LocalCase();
  }

  /** The driver measures that root; framing it panics. */
  method FramePanicking() returns (driven: Result<Measure, RecursiveError>, framed: Completion<Result<nat, RecursiveError>>)
    ensures driven.Ok? && framed.Panicked?
  {
    hide Panicking, ParseRoot, RootPanics, CaseGrammar, LeavesRoot, MeasureOf;
    PanickingRoot();
    var root := LeavesRoot(Panicking());
    driven := Skip(CaseGrammar(), root, 0, DepthBudget(3, 3));
    framed := FrameRoot(CaseGrammar(), root, 0, DepthBudget(2, 3));
  }

  /** An array of one such root. Its body frames, since its item is only skipped. */
  function OuterBody(): seq<byte> {
    ArrayBytes(1, LeavesRoot(Panicking()))
  }

  lemma OuterReads()
    ensures |OuterBody()| == 2 + |LeavesRoot(Panicking())| <= USIZE_MAX && OuterBody()[2..] == LeavesRoot(Panicking())
    ensures ParseBody(CaseGrammar(), RootArray(), OuterBody(), 0, 3).Parsed?
    ensures ParseBody(CaseGrammar(), RootArray(), OuterBody(), 0, 3).value.ArrayTree?
    ensures |ParseBody(CaseGrammar(), RootArray(), OuterBody(), 0, 3).value.items| == 1
    ensures ParseBody(CaseGrammar(), RootArray(), OuterBody(), 0, 3).end == |OuterBody()|
    ensures !BodyPanics(CaseGrammar(), RootArray(), OuterBody(), 0, 3)
    ensures RootPanics(CaseGrammar(), LeavesRoot(Panicking()), 2, 3)
  {
    hide LeavesInput, Panicking, PanicsBefore, LeafMeasures, ParseRoot, RootPanics, CaseGrammar, LeavesRoot, LeafTrees, ParseBody,
         MeasuresOf, Readable, DecodeScalar, ArrayBytes;
    var root := LeavesRoot(Panicking());
    PanickingLeaves();
    PanickingMeasures();
    LeavesRootReads(Panicking(), 2, 3);
    var tree := Tree(0, ArrayTree(LeafTrees(Panicking())));
    OneItemReads(root, 2, 3, tree, |root|);
    ArrayReads(1, root, 0, 3, [tree], |root|);
    CountRead(1, root);
    FewNoPanic(MeasuresOf(CaseGrammar(), 1, root, 2, 3), Readable(CaseGrammar(), 1, root, 2, 3));
  }

  lemma NoShapeOfOne(m: seq<Measure>)
    requires |m| == 1
    ensures !WrongShape(m)
  {
  }

  /** Random access and iteration both panic on that item. */
  method GetPanicking() returns (stepped: Completion<Option<Result<Range, ItemError>>>, got: Completion<Lookup>)
    ensures stepped.Panicked? && got.Panicked?
  {
    hide Panicking, RootPanics, CaseGrammar, LeavesRoot, OuterBody, ParseBody, BodyPanics, MeasuresOf, Observed, WidthsOf, WrongShape,
         KeepsShape, Located, Retained, RepeatsBefore, RepeatsWidth, Start, Validated;
    var depth: RecursiveDepth := DepthBudget(3, 4);
    var root := LeavesRoot(Panicking());
    OuterReads();
    LocalCase();
    var framed := FrameArray(CaseGrammar(), RootArray(), OuterBody(), 0, depth);
    var frame := framed.value.value;
    ghost var m := MeasuresOf(CaseGrammar(), 1, root, 2, 3);
    ghost var w := WidthsOf(m);
    NoShapeOfOne(m);
    FramedView(CaseGrammar(), root, 1, 2, depth, frame.geometry);
    assert root[..|root|] == root && root[0..] == root;
    assert Start(w, 0) == 0 by { StartZero(w); }
    var v := ArrayView(CaseGrammar(), root, 1, 2, depth, frame.geometry);
    assert Located(v, w, 0) == Ok(Some(ItemRange(w, 0)));
    got := Get(v, 0, w);
    var walker := new ArrayIter(v);
    stepped := walker.Next();
  }
}
