/** Writing what was read: every tree that some bytes read as has an encoding, as long as
    those bytes, and the same but for the gaps before placed scalars. */
module RecursiveRewriting {
  import opened Base
  import opened Grammar
  import opened RecursiveWriter

  /** What a leaf was framed from frames again anywhere and before anything. */
  ghost predicate FreeLeaf(frame: (seq<byte>, nat) -> Option<nat>) {
    forall x: seq<byte>, at: nat ::
      frame(x, at).Some? && frame(x, at).value <= |x| ==> LeafWritten(frame, x[..frame(x, at).value])
  }

  ghost predicate FreeGrammar(g: Grammar) {
    forall selector :: selector in g.variants ==> FreeBody(g.variants[selector])
  }

  ghost predicate FreeBody(body: Body) {
    body.LeafBody? ==> FreeLeaf(body.frame)
  }

  /** No body puts a gap before its placed scalar. */
  ghost predicate Gapless(g: Grammar) {
    forall selector :: selector in g.variants ==> GaplessBody(g.variants[selector])
  }

  predicate GaplessBody(body: Body) {
    body.DemandBody? ==> body.pad == 0 && body.align.None?
  }

  /** The encoding is as long as what was read, and without gaps the same. */
  ghost predicate Rewrites(encoding: Option<seq<byte>>, input: seq<byte>, n: nat, gapless: bool) {
    encoding.Some? && |encoding.value| == n <= |input| && (gapless ==> encoding.value == input[..n])
  }

  lemma BothRewrite(a: Option<seq<byte>>, b: Option<seq<byte>>, input: seq<byte>, m: nat, n: nat, gapless: bool)
    requires Rewrites(a, input, m, gapless) && Rewrites(b, input[m..], n, gapless)
    ensures Rewrites(Both(a, b), input, m + n, gapless)
  {
    assert input[..m] + input[m..][..n] == input[..m + n];
  }

  lemma {:induction false} RootRewrites(g: Grammar, input: seq<byte>, at: nat, depth: nat)
    requires FreeGrammar(g) && ParseRoot(g, input, at, depth).Parsed?
    ensures var Parsed(t, n) := ParseRoot(g, input, at, depth);
            Shaped(g, t) && Height(t) <= depth && Rewrites(Encode(g, t), input, n, Gapless(g))
    decreases depth, 0, 0
  {
    hide ParseBody, EncodeBody, ShapedBody, BodyHeight, Rewrites, Gapless, FreeBody;
    var w := g.selector.width;
    var selector := DecodeUnsigned(g.selector.endian, input[..w]);
    EncodeDecode(g.selector.endian, input[..w]);
    SliceRewrites(input, w, Gapless(g));
    assert FreeBody(g.variants[selector]);
    BodyRewrites(g, selector, input[w..], at + w, depth - 1);
    var Parsed(body, end) := ParseBody(g, g.variants[selector], input[w..], at + w, depth - 1);
    BothRewrite(Some(input[..w]), EncodeBody(g, g.variants[selector], body), input, w, end, Gapless(g));
  }

  lemma SliceRewrites(input: seq<byte>, n: nat, gapless: bool)
    requires n <= |input|
    ensures Rewrites(Some(input[..n]), input, n, gapless)
  {
  }

  lemma {:induction false} BodyRewrites(g: Grammar, selector: nat, input: seq<byte>, at: nat, depth: nat)
    requires FreeGrammar(g) && selector in g.variants && FreeBody(g.variants[selector])
    requires ParseBody(g, g.variants[selector], input, at, depth).Parsed?
    ensures var body := g.variants[selector];
            var Parsed(t, n) := ParseBody(g, body, input, at, depth);
            ShapedBody(g, body, t) && BodyHeight(t) <= depth && Rewrites(EncodeBody(g, body, t), input, n, Gapless(g))
    decreases depth, 2, 0
  {
    hide ParseItems, ParseFields, ParseDemand, EncodeItems, EncodeParts, EncodeTail, Encode, Shaped, ShapedPart,
      ItemsHeight, PartsHeight, Height, DecodeScalar, EncodeScalar, Representable, Gapless, FreeGrammar;
    var body := g.variants[selector];
    var n := ParseBody(g, body, input, at, depth).end;
    match body
    case UnitBody =>
    case LeafBody(_) =>
    case ArrayBody(count) =>
      hide Rewrites;
      var w := count.width;
      ScalarBytes(count, input[..w]);
      SliceRewrites(input, w, Gapless(g));
      var length := DecodeScalar(count, input[..w]);
      ItemsRewrite(g, length, input[w..], at + w, depth);
      var Parsed(items, end) := ParseItems(g, length, input[w..], at + w, depth);
      BothRewrite(Some(input[..w]), EncodeItems(g, items), input, w, end, Gapless(g));
    case ObjectBody(fields) => FieldsRewrite(g, fields, input, at, depth);
    case DemandBody(_, _, _, _) =>
      DemandRewrites(g, selector, input, at, depth);
  }

  lemma {:induction false} ItemsRewrite(g: Grammar, count: nat, input: seq<byte>, at: nat, depth: nat)
    requires FreeGrammar(g) && ParseItems(g, count, input, at, depth).Parsed?
    ensures var Parsed(items, n) := ParseItems(g, count, input, at, depth);
            && |items| == count && (forall i :: 0 <= i < |items| ==> Shaped(g, items[i]))
            && ItemsHeight(items) <= depth && Rewrites(EncodeItems(g, items), input, n, Gapless(g))
    decreases depth, 1, count
  {
    hide ParseRoot, Encode, Shaped, Height, Gapless, FreeGrammar;
    if count > 0 {
      var Parsed(item, end) := ParseRoot(g, input, at, depth);
      RootRewrites(g, input, at, depth);
      ItemsRewrite(g, count - 1, input[end..], at + end, depth);
      var Parsed(items, more) := ParseItems(g, count - 1, input[end..], at + end, depth);
      assert ([item] + items)[1..] == items;
      BothRewrite(Encode(g, item), EncodeItems(g, items), input, end, more, Gapless(g));
    }
  }

  lemma {:induction false} FieldsRewrite(g: Grammar, fields: seq<ObjectField>, input: seq<byte>, at: nat, depth: nat)
    requires FreeGrammar(g) && ParseFields(g, fields, input, at, depth).Parsed?
    ensures var Parsed(parts, n) := ParseFields(g, fields, input, at, depth);
            && |parts| == |fields| && (forall i :: 0 <= i < |parts| ==> ShapedPart(g, fields[i], parts[i]))
            && PartsHeight(parts) <= depth && Rewrites(EncodeParts(g, fields, parts), input, n, Gapless(g))
    decreases depth, 1, |fields|
  {
    hide ParseField, EncodePart, ShapedPart, PartHeight, Gapless, FreeGrammar;
    if fields != [] {
      var Parsed(part, end) := ParseField(g, fields[0], input, at, depth);
      FieldRewrites(g, fields[0], input, at, depth);
      FieldsRewrite(g, fields[1..], input[end..], at + end, depth);
      var Parsed(parts, more) := ParseFields(g, fields[1..], input[end..], at + end, depth);
      assert ([part] + parts)[1..] == parts;
      BothRewrite(EncodePart(g, fields[0], part), EncodeParts(g, fields[1..], parts), input, end, more, Gapless(g));
    }
  }

  lemma {:induction false} FieldRewrites(g: Grammar, field: ObjectField, input: seq<byte>, at: nat, depth: nat)
    requires FreeGrammar(g) && ParseField(g, field, input, at, depth).Parsed?
    ensures var Parsed(part, n) := ParseField(g, field, input, at, depth);
            ShapedPart(g, field, part) && PartHeight(part) <= depth && Rewrites(EncodePart(g, field, part), input, n, Gapless(g))
    decreases depth, 1, 0
  {
    hide ParseRoot, Encode, Shaped, Height, DecodeScalar, EncodeScalar, Representable, Gapless, FreeGrammar;
    match field
    case RecursiveField => RootRewrites(g, input, at, depth);
    case ScalarField(scalar) => ScalarBytes(scalar, input[..scalar.width]);
    case BytesField(_) =>
  }

  lemma {:induction false} DemandRewrites(g: Grammar, selector: nat, input: seq<byte>, at: nat, depth: nat)
    requires FreeGrammar(g) && selector in g.variants && g.variants[selector].DemandBody?
    requires ParseDemand(g, g.variants[selector], input, at, depth).Parsed?
    ensures var body := g.variants[selector];
            var Parsed(t, n) := ParseDemand(g, body, input, at, depth);
            && t.DemandTree? && ShapedBody(g, body, t) && BodyHeight(t) <= depth
            && Rewrites(EncodeBody(g, body, t), input, n, Gapless(g))
    decreases depth, 1, 1
  {
    hide ParseRoot, ParseDemandTail, EncodeTail, Encode, Shaped, Height, Representable, DecodeUnsigned, EncodeUnsigned,
      Gapless, FreeGrammar, Rewrites, Both;
    var body := g.variants[selector];
    var w := body.controller.width;
    EncodeDecode(body.controller.endian, input[..w]);
    var Parsed(left, n) := ParseRoot(g, input[w..], at + w, depth);
    RootRewrites(g, input[w..], at + w, depth);
    SliceRewrites(input, w, Gapless(g));
    BothRewrite(Some(input[..w]), Encode(g, left), input, w, n, Gapless(g));
    var extent := DecodeUnsigned(body.controller.endian, input[..w]);
    TailRewrites(g, selector, extent, w + n, input[w + n..], at + w + n, depth);
    var Parsed(tail, m) := ParseDemandTail(g, body, extent, w + n, input[w + n..], at + w + n, depth);
    BothRewrite(Both(Some(input[..w]), Encode(g, left)), EncodeTail(g, body, w + n, tail), input, w + n, m, Gapless(g));
    RewritesLength(Encode(g, left), input[w..], n, Gapless(g));
    BothIs(input[..w], Encode(g, left));
  }

  lemma RewritesLength(encoding: Option<seq<byte>>, input: seq<byte>, n: nat, gapless: bool)
    requires Rewrites(encoding, input, n, gapless)
    ensures encoding.Some? && |encoding.value| == n
  {
  }

  lemma BothIs(a: seq<byte>, b: Option<seq<byte>>)
    requires b.Some?
    ensures Both(Some(a), b) == Some(a + b.value)
  {
  }

  lemma {:induction false} TailRewrites(g: Grammar, selector: nat, extent: nat, behind: nat, input: seq<byte>, at: nat, depth: nat)
    requires FreeGrammar(g) && selector in g.variants && g.variants[selector].DemandBody?
    requires ParseDemandTail(g, g.variants[selector], extent, behind, input, at, depth).Parsed?
    ensures var body := g.variants[selector];
            var Parsed(tail, n) := ParseDemandTail(g, body, extent, behind, input, at, depth);
            && |tail.bytes| == extent && Shaped(g, tail.right) && Height(tail.right) <= depth
            && Representable(body.scalar, tail.scalar)
            && Rewrites(EncodeTail(g, body, behind, tail), input, n, Gapless(g))
    decreases depth, 1, 0
  {
    hide ParseRoot, Encode, Shaped, Height, Representable, DecodeScalar, EncodeScalar, Gapless, FreeGrammar, ScalarPosition;
    var body := g.variants[selector];
    var start := ScalarPosition(behind + extent, body.pad, body.align).value - behind;
    var end := start + body.scalar.width;
    ScalarBytes(body.scalar, input[start..end]);
    RootRewrites(g, input[end..], at + end, depth);
    GaplessPosition(g, selector, behind + extent);
    var stored := input[..extent] + Zeros(start - extent) + input[start..end];
    assert start == extent ==> stored == input[..end];
    assert Rewrites(Some(stored), input, end, Gapless(g));
    var Parsed(right, m) := ParseRoot(g, input[end..], at + end, depth);
    BothRewrite(Some(stored), Encode(g, right), input, end, m, Gapless(g));
  }

  lemma GaplessPosition(g: Grammar, selector: nat, bytesEnd: nat)
    requires selector in g.variants && g.variants[selector].DemandBody?
    ensures Gapless(g) ==> ScalarPosition(bytesEnd, g.variants[selector].pad, g.variants[selector].align) == Some(bytesEnd)
  {
    assert Gapless(g) ==> GaplessBody(g.variants[selector]);
  }

  /** A tree has an encoding exactly when some bytes read as it, given enough depth; in a
      grammar without gaps those bytes are the encoding. */
  lemma EncodesExactly(g: Grammar, t: Tree, at: nat, depth: nat)
    requires FreeGrammar(g) && Shaped(g, t) && Height(t) <= depth
    ensures Encode(g, t).Some? <==> exists input: seq<byte>, n: nat :: ParseRoot(g, input, at, depth) == Parsed(t, n)
    ensures Gapless(g) ==>
              forall input: seq<byte>, n: nat :: ParseRoot(g, input, at, depth) == Parsed(t, n) ==> n <= |input| && Encode(g, t) == Some(input[..n])
  {
    hide ParseRoot, Encode, Shaped, Height, Gapless, FreeGrammar;
    if Encode(g, t).Some? {
      RootReads(g, t, [], at, depth);
      assert ParseRoot(g, Encode(g, t).value + [], at, depth) == Parsed(t, |Encode(g, t).value|);
    }
    forall input: seq<byte>, n: nat | ParseRoot(g, input, at, depth) == Parsed(t, n)
      ensures Encode(g, t).Some? && n <= |input| && (Gapless(g) ==> Encode(g, t) == Some(input[..n]))
    {
      RootRewrites(g, input, at, depth);
    }
  }
}
