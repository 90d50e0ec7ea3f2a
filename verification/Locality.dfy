/** A reading depends only on the bytes it consumes: what follows an item neither
    changes the item nor its extent. */
module Locality {
  import opened Base
  import opened Grammar

  /** A leaf frames the same extent whatever follows its bytes. */
  ghost predicate LocalLeaf(frame: (seq<byte>, nat) -> Option<nat>) {
    forall x: seq<byte>, y: seq<byte>, at: nat ::
      frame(x, at).Some? && frame(x, at).value <= |x| && x[..frame(x, at).value] <= y ==> frame(y, at) == frame(x, at)
  }

  ghost predicate LocalGrammar(g: Grammar) {
    forall selector :: selector in g.variants ==> LocalBody(g.variants[selector])
  }

  ghost predicate LocalBody(body: Body) {
    body.LeafBody? ==> LocalLeaf(body.frame)
  }

  /** `y` starts with the first `n` bytes of `x`. */
  ghost predicate Shares(x: seq<byte>, y: seq<byte>, n: nat) {
    n <= |x| && n <= |y| && x[..n] == y[..n]
  }

  lemma SharesSlice(x: seq<byte>, y: seq<byte>, n: nat, i: nat, j: nat)
    requires Shares(x, y, n) && i <= j <= n
    ensures x[i..j] == y[i..j] && Shares(x[i..], y[i..], j - i)
  {
    assert x[i..j] == x[..n][i..j] && y[i..j] == y[..n][i..j];
    assert x[i..][..j - i] == x[i..j] && y[i..][..j - i] == y[i..j];
  }

  lemma {:induction false} RootLocal(g: Grammar, x: seq<byte>, y: seq<byte>, at: nat, depth: nat)
    requires LocalGrammar(g) && ParseRoot(g, x, at, depth).Parsed?
    requires Shares(x, y, ParseRoot(g, x, at, depth).end)
    ensures ParseRoot(g, y, at, depth) == ParseRoot(g, x, at, depth)
    decreases depth, 0, 0
  {
    var n, w := ParseRoot(g, x, at, depth).end, g.selector.width;
    SharesSlice(x, y, n, 0, w);
    SharesSlice(x, y, n, w, n);
    assert x[0..w] == x[..w] && y[0..w] == y[..w];
    var selector := DecodeUnsigned(g.selector.endian, x[..w]);
    assert LocalBody(g.variants[selector]);
    BodyLocal(g, g.variants[selector], x[w..], y[w..], at + w, depth - 1);
  }

  lemma {:induction false} BodyLocal(g: Grammar, body: Body, x: seq<byte>, y: seq<byte>, at: nat, depth: nat)
    requires LocalGrammar(g) && LocalBody(body) && ParseBody(g, body, x, at, depth).Parsed?
    requires Shares(x, y, ParseBody(g, body, x, at, depth).end)
    ensures ParseBody(g, body, y, at, depth) == ParseBody(g, body, x, at, depth)
    decreases depth, 2, 0
  {
    hide ParseRoot, ParseItems, ParseFields, ParseDemand;
    var n := ParseBody(g, body, x, at, depth).end;
    match body
    case UnitBody =>
    case LeafBody(frame) =>
      assert x[..n] <= y;
    case ArrayBody(_) => ArrayLocal(g, body, x, y, at, depth);
    case ObjectBody(fields) => FieldsLocal(g, fields, x, y, at, depth);
    case DemandBody(_, _, _, _) => DemandLocal(g, body, x, y, at, depth);
  }

  lemma {:induction false} ArrayLocal(g: Grammar, body: Body, x: seq<byte>, y: seq<byte>, at: nat, depth: nat)
    requires body.ArrayBody? && LocalGrammar(g) && ParseBody(g, body, x, at, depth).Parsed?
    requires Shares(x, y, ParseBody(g, body, x, at, depth).end)
    ensures ParseBody(g, body, y, at, depth) == ParseBody(g, body, x, at, depth)
    decreases depth, 1, U32_MAX + 1
  {
    hide ParseRoot, ParseItems, LocalGrammar;
    var n, w := ParseBody(g, body, x, at, depth).end, body.count.width;
    SharesSlice(x, y, n, 0, w);
    SharesSlice(x, y, n, w, n);
    assert x[0..w] == x[..w] && y[0..w] == y[..w];
    ItemsLocal(g, DecodeScalar(body.count, x[..w]), x[w..], y[w..], at + w, depth);
  }

  lemma {:induction false} ItemsLocal(g: Grammar, n: nat, x: seq<byte>, y: seq<byte>, at: nat, depth: nat)
    requires LocalGrammar(g) && ParseItems(g, n, x, at, depth).Parsed?
    requires Shares(x, y, ParseItems(g, n, x, at, depth).end)
    ensures ParseItems(g, n, y, at, depth) == ParseItems(g, n, x, at, depth)
    decreases depth, 1, n
  {
    hide ParseRoot, LocalGrammar;
    if n > 0 {
      var total, end := ParseItems(g, n, x, at, depth).end, ParseRoot(g, x, at, depth).end;
      SharesSlice(x, y, total, 0, end);
      assert x[0..] == x && y[0..] == y;
      RootLocal(g, x, y, at, depth);
      SharesSlice(x, y, total, end, total);
      ItemsLocal(g, n - 1, x[end..], y[end..], at + end, depth);
    }
  }

  lemma {:induction false} FieldsLocal(g: Grammar, fields: seq<ObjectField>, x: seq<byte>, y: seq<byte>, at: nat, depth: nat)
    requires LocalGrammar(g) && ParseFields(g, fields, x, at, depth).Parsed?
    requires Shares(x, y, ParseFields(g, fields, x, at, depth).end)
    ensures ParseFields(g, fields, y, at, depth) == ParseFields(g, fields, x, at, depth)
    decreases depth, 1, |fields|
  {
    hide ParseField;
    if fields != [] {
      var total, end := ParseFields(g, fields, x, at, depth).end, ParseField(g, fields[0], x, at, depth).end;
      SharesSlice(x, y, total, 0, end);
      assert x[0..] == x && y[0..] == y;
      FieldLocal(g, fields[0], x, y, at, depth);
      SharesSlice(x, y, total, end, total);
      FieldsLocal(g, fields[1..], x[end..], y[end..], at + end, depth);
    }
  }

  lemma {:induction false} FieldLocal(g: Grammar, field: ObjectField, x: seq<byte>, y: seq<byte>, at: nat, depth: nat)
    requires LocalGrammar(g) && ParseField(g, field, x, at, depth).Parsed?
    requires Shares(x, y, ParseField(g, field, x, at, depth).end)
    ensures ParseField(g, field, y, at, depth) == ParseField(g, field, x, at, depth)
    decreases depth, 1, 0
  {
    hide ParseRoot;
    if field.RecursiveField? {
      RootLocal(g, x, y, at, depth);
    }
  }

  lemma {:induction false} DemandLocal(g: Grammar, body: Body, x: seq<byte>, y: seq<byte>, at: nat, depth: nat)
    requires body.DemandBody? && LocalGrammar(g) && ParseDemand(g, body, x, at, depth).Parsed?
    requires Shares(x, y, ParseDemand(g, body, x, at, depth).end)
    ensures ParseDemand(g, body, y, at, depth) == ParseDemand(g, body, x, at, depth)
    decreases depth, 1, 1
  {
    hide ParseRoot, ParseDemandTail;
    var total, w := ParseDemand(g, body, x, at, depth).end, body.controller.width;
    var left := ParseRoot(g, x[w..], at + w, depth);
    SharesSlice(x, y, total, 0, w);
    assert x[0..w] == x[..w] && y[0..w] == y[..w];
    SharesSlice(x, y, total, w, w + left.end);
    RootLocal(g, x[w..], y[w..], at + w, depth);
    SharesSlice(x, y, total, w + left.end, total);
    TailLocal(g, body, DecodeUnsigned(body.controller.endian, x[..w]), w + left.end,
              x[w + left.end..], y[w + left.end..], at + w + left.end, depth);
  }

  lemma {:induction false} TailLocal(g: Grammar, body: Body, extent: nat, behind: nat, x: seq<byte>, y: seq<byte>, at: nat, depth: nat)
    requires body.DemandBody? && LocalGrammar(g) && ParseDemandTail(g, body, extent, behind, x, at, depth).Parsed?
    requires Shares(x, y, ParseDemandTail(g, body, extent, behind, x, at, depth).end)
    ensures ParseDemandTail(g, body, extent, behind, y, at, depth) == ParseDemandTail(g, body, extent, behind, x, at, depth)
    decreases depth, 1, 0
  {
    hide ParseRoot;
    var total := ParseDemandTail(g, body, extent, behind, x, at, depth).end;
    var start := ScalarPosition(behind + extent, body.pad, body.align).value - behind;
    var end := start + body.scalar.width;
    SharesSlice(x, y, total, 0, extent);
    assert x[0..extent] == x[..extent] && y[0..extent] == y[..extent];
    SharesSlice(x, y, total, start, end);
    SharesSlice(x, y, total, end, total);
    RootLocal(g, x[end..], y[end..], at + end, depth);
  }

  /** The exact span of a framed root reads as that root, all of it. */
  lemma ExactSpan(g: Grammar, input: seq<byte>, at: nat, depth: nat)
    requires LocalGrammar(g) && ParseRoot(g, input, at, depth).Parsed?
    ensures var r := ParseRoot(g, input, at, depth);
            ParseRoot(g, input[..r.end], at, depth) == r && |input[..r.end]| == r.end
  {
    hide ParseRoot;
    var n := ParseRoot(g, input, at, depth).end;
    RootLocal(g, input, input[..n], at, depth);
  }
}
