/** The staged recursive writer: counts and lengths are reserved, the children are
    written, then the reservation is patched. Reading what it wrote gives the tree back. */
module RecursiveWriter {
  import opened Base
  import opened Grammar
  import opened RecursiveSignature
  import opened Output
  import opened Writers

  datatype WriteError = CountOverflow(count: nat) | Layout | OutputFailed(error: OutputError)

  // ----- what a tree is written as -----

  /** A leaf's own writer emitted bytes that frame as all of themselves. */
  ghost predicate LeafWritten(frame: (seq<byte>, nat) -> Option<nat>, bytes: seq<byte>) {
    forall rest: seq<byte>, at: nat :: frame(bytes + rest, at) == Some(|bytes|)
  }

  /** The tree uses the grammar's variants and field types, as the typed stages ensure. */
  ghost predicate Shaped(g: Grammar, t: Tree)
    decreases t
  {
    && t.selector in g.variants && t.selector < Pow256(g.selector.width)
    && ShapedBody(g, g.variants[t.selector], t.body)
  }

  ghost predicate ShapedBody(g: Grammar, body: Body, t: BodyTree)
    decreases t
  {
    match t
    case UnitTree => body.UnitBody?
    case LeafTree(bytes) => body.LeafBody? && LeafWritten(body.frame, bytes)
    case ArrayTree(items) => body.ArrayBody? && forall i :: 0 <= i < |items| ==> Shaped(g, items[i])
    case ObjectTree(parts) =>
      && body.ObjectBody? && |parts| == |body.fields|
      && forall i :: 0 <= i < |parts| ==> ShapedPart(g, body.fields[i], parts[i])
    case DemandTree(left, tail) =>
      && body.DemandBody? && Shaped(g, left) && Shaped(g, tail.right)
      && Representable(body.scalar, tail.scalar)
  }

  ghost predicate ShapedPart(g: Grammar, field: ObjectField, part: Part)
    decreases part
  {
    match part
    case ChildPart(child) => field.RecursiveField? && Shaped(g, child)
    case ScalarPart(value) => field.ScalarField? && Representable(field.scalar, value)
    case BytesPart(bytes) => field.BytesField? && |bytes| == field.width
  }

  /** Both pieces, one after the other. */
  function Both(a: Option<seq<byte>>, b: Option<seq<byte>>): Option<seq<byte>> {
    if a.Some? && b.Some? then Some(a.value + b.value) else None
  }

  /** The bytes of a root, unless some count, length or position does not fit. */
  ghost function Encode(g: Grammar, t: Tree): Option<seq<byte>>
    requires Shaped(g, t)
    decreases t
  {
    Both(Some(EncodeUnsigned(g.selector.endian, t.selector, g.selector.width)),
         EncodeBody(g, g.variants[t.selector], t.body))
  }

  ghost function EncodeBody(g: Grammar, body: Body, t: BodyTree): Option<seq<byte>>
    requires ShapedBody(g, body, t)
    decreases t
  {
    match t
    case UnitTree => Some([])
    case LeafTree(bytes) => Some(bytes)
    case ArrayTree(items) =>
      if |items| <= U32_MAX && Representable(body.count, |items|)
      then Both(Some(EncodeScalar(body.count, |items|)), EncodeItems(g, items))
      else None
    case ObjectTree(parts) => EncodeParts(g, body.fields, parts)
    case DemandTree(left, tail) =>
      var l := Encode(g, left);
      if l.None? || |tail.bytes| >= Pow256(body.controller.width) then None
      else
        Both(Some(EncodeUnsigned(body.controller.endian, |tail.bytes|, body.controller.width) + l.value),
             EncodeTail(g, body, body.controller.width + |l.value|, tail))
  }

  ghost function EncodeItems(g: Grammar, items: seq<Tree>): Option<seq<byte>>
    requires forall i :: 0 <= i < |items| ==> Shaped(g, items[i])
    decreases items
  {
    if items == [] then Some([]) else Both(Encode(g, items[0]), EncodeItems(g, items[1..]))
  }

  ghost function EncodeParts(g: Grammar, fields: seq<ObjectField>, parts: seq<Part>): Option<seq<byte>>
    requires |parts| == |fields| && forall i :: 0 <= i < |parts| ==> ShapedPart(g, fields[i], parts[i])
    decreases parts
  {
    if parts == [] then Some([]) else Both(EncodePart(g, fields[0], parts[0]), EncodeParts(g, fields[1..], parts[1..]))
  }

  ghost function EncodePart(g: Grammar, field: ObjectField, part: Part): Option<seq<byte>>
    requires ShapedPart(g, field, part)
    decreases part
  {
    match part
    case ChildPart(child) => Encode(g, child)
    case ScalarPart(value) => Some(EncodeScalar(field.scalar, value))
    case BytesPart(bytes) => Some(bytes)
  }

  /** What follows the left child, `behind` bytes after the body start. */
  ghost function EncodeTail(g: Grammar, body: Body, behind: nat, tail: DemandTail): Option<seq<byte>>
    requires body.DemandBody? && Shaped(g, tail.right) && Representable(body.scalar, tail.scalar)
    decreases tail
  {
    match ScalarPosition(behind + |tail.bytes|, body.pad, body.align)
    case None => None
    case Some(position) =>
      Both(Some(tail.bytes + Zeros(position - behind - |tail.bytes|) + EncodeScalar(body.scalar, tail.scalar)),
           Encode(g, tail.right))
  }

  // ----- depth -----

  /** Levels of recursive roots, this one included. */
  function Height(t: Tree): (h: nat)
    ensures h > 0
    decreases t
  {
    1 + BodyHeight(t.body)
  }

  function BodyHeight(t: BodyTree): nat
    decreases t
  {
    match t
    case UnitTree => 0
    case LeafTree(_) => 0
    case ArrayTree(items) => ItemsHeight(items)
    case ObjectTree(parts) => PartsHeight(parts)
    case DemandTree(left, tail) => Max(Height(left), Height(tail.right))
  }

  function ItemsHeight(items: seq<Tree>): nat
    decreases items
  {
    if items == [] then 0 else Max(Height(items[0]), ItemsHeight(items[1..]))
  }

  function PartsHeight(parts: seq<Part>): nat
    decreases parts
  {
    if parts == [] then 0
    else Max(PartHeight(parts[0]), PartsHeight(parts[1..]))
  }

  function PartHeight(part: Part): nat
    decreases part
  {
    if part.ChildPart? then Height(part.child) else 0
  }

  /** Nesting is counted in levels below the root, saturating at 32 bits. */
  lemma {:induction false} NestedIsHeight(scalar: Scalar, tree: Tree, consumed: nat)
    ensures MeasureOf(scalar, tree, consumed).nestedDepth == Min(Height(tree) - 1, U32_MAX)
  {
    RootNesting(tree, 0, Fresh(scalar));
  }

  /** The deepest level reached from children at `level`. */
  function Deepest(nested: nat, level: nat, height: nat): nat {
    if height == 0 then nested else Max(nested, Min(level + height - 1, U32_MAX))
  }

  lemma {:induction false} RootNesting(tree: Tree, level: nat, t: Trace)
    ensures RootTrace(tree, level, t).nested == Deepest(t.nested, level + 1, BodyHeight(tree.body))
    decreases tree, 0
  {
    hide Mix;
    if !tree.body.UnitTree? && !tree.body.LeafTree? {
      BodyNesting(tree.body, level + 1, PassStart(t, tree.selector));
    }
  }

  lemma {:induction false} ChildNesting(tree: Tree, level: nat, t: Trace)
    ensures ChildTrace(tree, level, t).nested == Deepest(t.nested, level, Height(tree))
    decreases tree, 1
  {
    RootNesting(tree, level, Deepen(t, level));
  }

  lemma {:induction false} BodyNesting(body: BodyTree, level: nat, t: Trace)
    ensures BodyTrace(body, level, t).nested == Deepest(t.nested, level, BodyHeight(body))
    decreases body, 0
  {
    hide RootTrace, Height;
    match body
    case UnitTree =>
    case LeafTree(_) =>
    case ArrayTree(items) => ItemsNesting(items, level, t);
    case ObjectTree(parts) => PartsNesting(parts, level, t);
    case DemandTree(left, tail) =>
      ChildNesting(left, level, t);
      ChildNesting(tail.right, level, ChildTrace(left, level, t));
  }

  lemma {:induction false} ItemsNesting(items: seq<Tree>, level: nat, t: Trace)
    ensures ItemsTrace(items, level, t).nested == Deepest(t.nested, level, ItemsHeight(items))
    decreases items, 0
  {
    hide RootTrace, Height;
    if items != [] {
      ChildNesting(items[0], level, t);
      ItemsNesting(items[1..], level, ChildTrace(items[0], level, t));
    }
  }

  lemma {:induction false} PartsNesting(parts: seq<Part>, level: nat, t: Trace)
    ensures PartsTrace(parts, level, t).nested == Deepest(t.nested, level, PartsHeight(parts))
    decreases parts, 0
  {
    hide RootTrace, Height;
    if parts != [] {
      PartNesting(parts[0], level, t);
      PartsNesting(parts[1..], level, PartTrace(parts[0], level, t));
    }
  }

  lemma {:induction false} PartNesting(part: Part, level: nat, t: Trace)
    ensures PartTrace(part, level, t).nested == Deepest(t.nested, level, PartHeight(part))
    decreases part, 0
  {
    hide RootTrace, Height;
    if part.ChildPart? {
      ChildNesting(part.child, level, t);
    }
  }

  // ----- reading back -----

  /** What reading `n` bytes of `value` gives when `enough` levels are left. */
  function Reading<T>(enough: bool, value: T, n: nat): Parsed<T> {
    if enough then Parsed(value, n) else NoParse
  }

  lemma Split(a: seq<byte>, b: seq<byte>, rest: seq<byte>)
    ensures (a + b + rest)[..|a|] == a && (a + b + rest)[|a|..] == b + rest
    ensures a + b + rest == a + (b + rest)
  {
  }

  lemma {:induction false} RootReads(g: Grammar, t: Tree, rest: seq<byte>, at: nat, depth: nat)
    requires Shaped(g, t) && Encode(g, t).Some?
    ensures ParseRoot(g, Encode(g, t).value + rest, at, depth) == Reading(Height(t) <= depth, t, |Encode(g, t).value|)
    decreases t
  {
    hide ParseBody, EncodeBody, ShapedBody, BodyHeight;
    var body, w := g.variants[t.selector], g.selector.width;
    var a, b := EncodeUnsigned(g.selector.endian, t.selector, w), EncodeBody(g, body, t.body).value;
    Split(a, b, rest);
    DecodeEncode(g.selector.endian, t.selector, w);
    if depth > 0 {
      BodyReads(g, body, t.body, rest, at + w, depth - 1);
    }
  }

  lemma {:induction false} BodyReads(g: Grammar, body: Body, t: BodyTree, rest: seq<byte>, at: nat, depth: nat)
    requires ShapedBody(g, body, t) && EncodeBody(g, body, t).Some?
    ensures ParseBody(g, body, EncodeBody(g, body, t).value + rest, at, depth) == Reading(BodyHeight(t) <= depth, t, |EncodeBody(g, body, t).value|)
    decreases t, 1
  {
    hide ParseItems, ParseFields, ParseDemand, EncodeItems, EncodeParts, EncodeTail, Encode, Shaped, ShapedPart,
      ItemsHeight, PartsHeight, Height, DecodeScalar, EncodeScalar, Representable;
    match t
    case UnitTree =>
    case LeafTree(bytes) => assert (bytes + rest)[..|bytes|] == bytes;
    case ArrayTree(items) =>
      var a, b := EncodeScalar(body.count, |items|), EncodeItems(g, items).value;
      Split(a, b, rest);
      ScalarRoundTrip(body.count, |items|);
      ItemsRead(g, items, rest, at + body.count.width, depth);
    case ObjectTree(parts) =>
      PartsRead(g, body.fields, parts, rest, at, depth);
    case DemandTree(left, tail) =>
      DemandReads(g, body, t, rest, at, depth);
  }

  lemma {:induction false} ItemsRead(g: Grammar, items: seq<Tree>, rest: seq<byte>, at: nat, depth: nat)
    requires forall i :: 0 <= i < |items| ==> Shaped(g, items[i])
    requires EncodeItems(g, items).Some?
    ensures ParseItems(g, |items|, EncodeItems(g, items).value + rest, at, depth) == Reading(ItemsHeight(items) <= depth, items, |EncodeItems(g, items).value|)
    decreases items
  {
    hide ParseRoot, Encode, Shaped, Height;
    if items != [] {
      var a, b := Encode(g, items[0]).value, EncodeItems(g, items[1..]).value;
      Split(a, b, rest);
      RootReads(g, items[0], b + rest, at, depth);
      ItemsRead(g, items[1..], rest, at + |a|, depth);
      assert items == [items[0]] + items[1..];
    }
  }

  lemma {:induction false} PartsRead(g: Grammar, fields: seq<ObjectField>, parts: seq<Part>, rest: seq<byte>, at: nat, depth: nat)
    requires |parts| == |fields| && forall i :: 0 <= i < |parts| ==> ShapedPart(g, fields[i], parts[i])
    requires EncodeParts(g, fields, parts).Some?
    ensures ParseFields(g, fields, EncodeParts(g, fields, parts).value + rest, at, depth)
         == Reading(PartsHeight(parts) <= depth, parts, |EncodeParts(g, fields, parts).value|)
    decreases parts
  {
    hide ParseField, EncodePart, ShapedPart, PartHeight;
    if parts != [] {
      var a, b := EncodePart(g, fields[0], parts[0]).value, EncodeParts(g, fields[1..], parts[1..]).value;
      Split(a, b, rest);
      PartReads(g, fields[0], parts[0], b + rest, at, depth);
      PartsRead(g, fields[1..], parts[1..], rest, at + |a|, depth);
      assert parts == [parts[0]] + parts[1..];
    }
  }

  lemma {:induction false} PartReads(g: Grammar, field: ObjectField, part: Part, rest: seq<byte>, at: nat, depth: nat)
    requires ShapedPart(g, field, part) && EncodePart(g, field, part).Some?
    ensures ParseField(g, field, EncodePart(g, field, part).value + rest, at, depth)
         == Reading(PartHeight(part) <= depth, part, |EncodePart(g, field, part).value|)
    decreases part
  {
    hide ParseRoot, Encode, Shaped, Height;
    var bytes := EncodePart(g, field, part).value;
    assert (bytes + rest)[..|bytes|] == bytes;
    match part
    case ChildPart(child) => RootReads(g, child, rest, at, depth);
    case ScalarPart(value) => ScalarRoundTrip(field.scalar, value);
    case BytesPart(_) =>
  }

  lemma SplitThree(c: seq<byte>, l: seq<byte>, b: seq<byte>, rest: seq<byte>)
    ensures var input := c + l + b + rest;
            && input[..|c|] == c && input[|c|..] == l + (b + rest) && input[|c| + |l|..] == b + rest
  {
    assert c + l + b + rest == c + (l + (b + rest));
  }

  lemma {:induction false} DemandReads(g: Grammar, body: Body, t: BodyTree, rest: seq<byte>, at: nat, depth: nat)
    requires t.DemandTree? && ShapedBody(g, body, t) && EncodeBody(g, body, t).Some?
    ensures ParseDemand(g, body, EncodeBody(g, body, t).value + rest, at, depth)
         == Reading(BodyHeight(t) <= depth, t, |EncodeBody(g, body, t).value|)
    decreases t, 0
  {
    hide ParseRoot, ParseDemandTail, Encode, EncodeTail, Shaped, Height;
    var DemandTree(left, tail) := t;
    var w := body.controller.width;
    var c, l := EncodeUnsigned(body.controller.endian, |tail.bytes|, w), Encode(g, left).value;
    var b := EncodeTail(g, body, w + |l|, tail).value;
    SplitThree(c, l, b, rest);
    DecodeEncode(body.controller.endian, |tail.bytes|, w);
    RootReads(g, left, b + rest, at + w, depth);
    TailReads(g, body, w + |l|, tail, rest, at + w + |l|, depth);
  }

  lemma {:induction false} TailReads(g: Grammar, body: Body, behind: nat, tail: DemandTail, rest: seq<byte>, at: nat, depth: nat)
    requires body.DemandBody? && Shaped(g, tail.right) && Representable(body.scalar, tail.scalar)
    requires EncodeTail(g, body, behind, tail).Some?
    ensures ParseDemandTail(g, body, |tail.bytes|, behind, EncodeTail(g, body, behind, tail).value + rest, at, depth)
         == Reading(Height(tail.right) <= depth, tail, |EncodeTail(g, body, behind, tail).value|)
    decreases tail
  {
    hide ParseRoot, Encode, Shaped, Height, ScalarPosition, DecodeScalar, EncodeScalar, Representable;
    var start := ScalarPosition(behind + |tail.bytes|, body.pad, body.align).value - behind;
    var scalar := EncodeScalar(body.scalar, tail.scalar);
    var gap := Zeros(start - |tail.bytes|);
    var r := Encode(g, tail.right).value;
    var input := tail.bytes + gap + scalar + r + rest;
    var end := start + body.scalar.width;
    assert input[..|tail.bytes|] == tail.bytes;
    assert input[start..end] == scalar;
    assert input[end..] == r + rest;
    ScalarRoundTrip(body.scalar, tail.scalar);
    RootReads(g, tail.right, rest, at + end, depth);
  }

  // ----- writing -----

  /** A write that is to append `encoding` to `before`. It fails when there is no
      encoding; on an obliging output it succeeds exactly when the result fits. */
  ghost predicate Emitted(w: Writer, ok: bool, before: seq<byte>, encoding: Option<seq<byte>>)
    reads w, w.output
  {
    match encoding
    case None => !ok
    case Some(bytes) =>
      && (ok ==> w.Valid() && w.Rep() == before + bytes)
      && (w.output.policy.Obliging() ==> (ok <==> |before| + |bytes| <= Min(w.output.Capacity(), USIZE_MAX)))
  }

  method Append(w: Writer, bytes: seq<byte>) returns (r: Result<Unit, WriteError>)
    requires w.Valid()
    modifies w, w.output
    ensures Emitted(w, r.Ok?, old(w.Rep()), Some(bytes)) && w.SameCapacity()
  {
    var written := w.Write(bytes);
    r := if written.Ok? then Ok(Unit) else Err(OutputFailed(written.error));
  }

  /** Rewrites bytes already written. */
  method PatchAt(w: Writer, offset: nat, bytes: seq<byte>) returns (r: Result<Unit, WriteError>)
    requires w.Valid()
    modifies w, w.output
    ensures offset + |bytes| > old(w.cursor) ==> r.Err?
    ensures r.Ok? ==> w.Valid() && w.Rep() == Overlay(old(w.Rep()), offset, bytes)
    ensures w.output.policy.Obliging() && offset + |bytes| <= old(w.cursor) ==> r.Ok?
    ensures w.SameCapacity()
  {
    var end := offset + |bytes|;
    if end > USIZE_MAX {
      return Err(OutputFailed(LengthOverflow));
    }
    if end > w.cursor {
      return Err(OutputFailed(Backwards(end, w.cursor)));
    }
    ghost var before := w.Rep();
    var written := w.WriteAt(offset, bytes);
    if written.Err? {
      return Err(OutputFailed(written.error));
    }
    OverlaidIsOverlay(before, w.Rep(), offset, bytes);
    r := Ok(Unit);
  }

  /** Zero-fills forward. */
  method FillTo(w: Writer, position: nat) returns (r: Result<Unit, WriteError>)
    requires w.Valid()
    modifies w, w.output
    ensures Emitted(w, r.Ok?, old(w.Rep()),
                    if position < old(w.cursor) then None else Some(Zeros(position - old(w.cursor))))
    ensures w.SameCapacity()
  {
    if position < w.cursor {
      return Err(OutputFailed(Backwards(position, w.cursor)));
    }
    ghost var before := w.Rep();
    var n := position - w.cursor;
    var written := w.FillAt(w.cursor, n, 0);
    if written.Err? {
      return Err(OutputFailed(written.error));
    }
    assert Repeat(0, n) == Zeros(n);
    OverlaidIsOverlay(before, w.Rep(), |before|, Zeros(n));
    OverlayAtEnd(before, Zeros(n));
    r := Ok(Unit);
  }

  lemma EmittedTwice(w: Writer, ok: bool, before: seq<byte>, a: seq<byte>, b: Option<seq<byte>>)
    requires Emitted(w, ok, before + a, b)
    ensures Emitted(w, ok, before, Both(Some(a), b))
  {
    if b.Some? {
      assert before + a + b.value == before + (a + b.value);
    }
  }

  /** A failed part fails the whole it belongs to. */
  lemma PartFailed(w: Writer, at: seq<byte>, part: Option<seq<byte>>, before: seq<byte>, whole: Option<seq<byte>>)
    requires Emitted(w, false, at, part)
    requires whole.Some? ==> part.Some? && |at| + |part.value| <= |before| + |whole.value|
    ensures Emitted(w, false, before, whole)
  {
  }

  /** Patching the reservation in front of what followed it. */
  lemma PatchReserved(before: seq<byte>, patch: seq<byte>, after: seq<byte>)
    ensures Overlay(before + Zeros(|patch|) + after, |before|, patch) == before + patch + after
  {
  }

  /** Writes one recursive root: its selector, then its body. */
  method WriteRoot(w: Writer, g: Grammar, t: Tree) returns (r: Result<Unit, WriteError>)
    requires w.Valid() && Shaped(g, t)
    modifies w, w.output
    ensures Emitted(w, r.Ok?, old(w.Rep()), Encode(g, t)) && w.SameCapacity()
    decreases t
  {
    hide EncodeBody, ShapedBody, Emitted;
    ghost var before := w.Rep();
    var body := g.variants[t.selector];
    var selector := EncodeUnsigned(g.selector.endian, t.selector, g.selector.width);
    r := Append(w, selector);
    if r.Err? {
      PartFailed(w, before, Some(selector), before, Encode(g, t));
      return;
    }
    EmittedOk(w, before, Some(selector));
    r := WriteBody(w, g, body, t.body);
    EmittedTwice(w, r.Ok?, before, selector, EncodeBody(g, body, t.body));
  }

  lemma EmittedOk(w: Writer, before: seq<byte>, a: Option<seq<byte>>)
    requires Emitted(w, true, before, a)
    ensures a.Some? && w.Valid() && w.Rep() == before + a.value
  {
  }

  method WriteBody(w: Writer, g: Grammar, body: Body, t: BodyTree) returns (r: Result<Unit, WriteError>)
    requires w.Valid() && ShapedBody(g, body, t)
    modifies w, w.output
    ensures Emitted(w, r.Ok?, old(w.Rep()), EncodeBody(g, body, t)) && w.SameCapacity()
    decreases t, 1
  {
    hide EncodeItems, EncodeParts, EncodeTail, Shaped, Encode, ShapedPart;
    match t {
      case UnitTree =>
        assert w.Rep() + [] == w.Rep();
        r := Ok(Unit);
      case LeafTree(bytes) => r := WriteLeaf(w, bytes);
      case ArrayTree(items) => r := WriteArray(w, g, body, t);
      case ObjectTree(parts) => r := WriteObject(w, g, body, t);
      case DemandTree(left, tail) => r := WriteDemand(w, g, body, t);
    }
  }

  /** An ordinary schema writes its bytes through a child writer. */
  method WriteLeaf(w: Writer, bytes: seq<byte>) returns (r: Result<Unit, WriteError>)
    requires w.Valid()
    modifies w, w.output
    ensures Emitted(w, r.Ok?, old(w.Rep()), Some(bytes)) && w.SameCapacity()
  {
    ghost var before := w.Rep();
    var child := w.ChildAt(w.cursor);
    match child {
      case Err(error) => r := Err(OutputFailed(error));
      case Ok(c) =>
        assert w.Rep() == before;
        var written := c.Write(bytes);
        if written.Err? {
          return Err(OutputFailed(written.error));
        }
        var finished := c.Finish();
        r := Ok(Unit);
    }
  }

  /** Reserves the count, writes every item, then patches the count. */
  method WriteArray(w: Writer, g: Grammar, body: Body, t: BodyTree) returns (r: Result<Unit, WriteError>)
    requires w.Valid() && t.ArrayTree? && ShapedBody(g, body, t)
    modifies w, w.output
    ensures Emitted(w, r.Ok?, old(w.Rep()), EncodeBody(g, body, t)) && w.SameCapacity()
    decreases t, 0
  {
    hide Emitted, EncodeItems, Shaped, Encode, EncodeScalar, Representable;
    ghost var before := w.Rep();
    var items := t.items;
    var countOffset := w.cursor;
    r := Append(w, Zeros(body.count.width));
    if r.Err? {
      PartFailed(w, before, Some(Zeros(body.count.width)), before, EncodeBody(g, body, t));
      return;
    }
    EmittedOk(w, before, Some(Zeros(body.count.width)));
    var n := 0;
    ghost var reserved, done := w.Rep(), [];
    assert items[0..] == items && reserved + done == reserved;
    BothEmpty(EncodeItems(g, items));
    while n < |items|
      invariant 0 <= n <= |items| && w.Valid() && w.SameCapacity() && w.Rep() == reserved + done
      invariant EncodeItems(g, items) == Both(Some(done), EncodeItems(g, items[n..]))
    {
      ghost var item := Encode(g, items[n]);
      r := WriteRoot(w, g, items[n]);
      ItemsUnfold(g, items, n, done);
      if r.Err? {
        PartFailed(w, reserved + done, item, before, EncodeBody(g, body, t));
        return;
      }
      EmittedOk(w, reserved + done, item);
      assert reserved + done + item.value == reserved + (done + item.value);
      done := done + item.value;
      n := n + 1;
    }
    ItemsDone(g, items);
    assert done + [] == done;
    if n > U32_MAX || !Representable(body.count, n) {
      NothingEmitted(w, before);
      return Err(CountOverflow(n));
    }
    var count := EncodeScalar(body.count, n);
    r := PatchAt(w, countOffset, count);
    PatchReserved(before, count, done);
    CountPatched(w, r.Ok?, before, count, done);
  }

  lemma NothingEmitted(w: Writer, before: seq<byte>)
    ensures Emitted(w, false, before, None)
  {
  }

  lemma BothEmpty(b: Option<seq<byte>>)
    ensures Both(Some([]), b) == b
  {
    if b.Some? {
      assert [] + b.value == b.value;
    }
  }

  lemma ItemsUnfold(g: Grammar, items: seq<Tree>, n: nat, done: seq<byte>)
    requires n < |items| && forall i :: 0 <= i < |items| ==> Shaped(g, items[i])
    ensures Both(Some(done), EncodeItems(g, items[n..])) ==
              (if Encode(g, items[n]).None? then None
               else Both(Some(done + Encode(g, items[n]).value), EncodeItems(g, items[n + 1..])))
  {
    hide Encode, Shaped;
    assert items[n..][0] == items[n] && items[n..][1..] == items[n + 1..];
    if Encode(g, items[n]).Some? && EncodeItems(g, items[n + 1..]).Some? {
      assert done + (Encode(g, items[n]).value + EncodeItems(g, items[n + 1..]).value)
          == done + Encode(g, items[n]).value + EncodeItems(g, items[n + 1..]).value;
    }
  }

  lemma ItemsDone(g: Grammar, items: seq<Tree>)
    ensures EncodeItems(g, items[|items|..]) == Some([])
  {
  }

  /** The represented bytes after a reservation of `|patch|` bytes is patched. */
  lemma CountPatched(w: Writer, ok: bool, before: seq<byte>, patch: seq<byte>, after: seq<byte>)
    requires ok ==> w.Valid() && w.Rep() == before + patch + after
    requires w.output.policy.Obliging() ==> ok && |before + patch + after| <= Min(w.output.Capacity(), USIZE_MAX)
    ensures Emitted(w, ok, before, Some(patch + after))
  {
    assert before + patch + after == before + (patch + after);
  }

  /** Writes the parts of an object in field order. */
  method WriteObject(w: Writer, g: Grammar, body: Body, t: BodyTree) returns (r: Result<Unit, WriteError>)
    requires w.Valid() && t.ObjectTree? && ShapedBody(g, body, t)
    modifies w, w.output
    ensures Emitted(w, r.Ok?, old(w.Rep()), EncodeBody(g, body, t)) && w.SameCapacity()
    decreases t, 0
  {
    hide Emitted, EncodeParts, EncodePart, ShapedPart;
    ghost var before := w.Rep();
    var fields, parts := body.fields, t.parts;
    var n := 0;
    ghost var done := [];
    assert fields[0..] == fields && parts[0..] == parts && before + done == before;
    BothEmpty(EncodeParts(g, fields, parts));
    while n < |parts|
      invariant 0 <= n <= |parts| && w.Valid() && w.SameCapacity() && w.Rep() == before + done
      invariant EncodeParts(g, fields, parts) == Both(Some(done), EncodeParts(g, fields[n..], parts[n..]))
    {
      ghost var part := EncodePart(g, fields[n], parts[n]);
      r := WritePart(w, g, fields[n], parts[n]);
      PartsUnfold(g, fields, parts, n, done);
      if r.Err? {
        PartFailed(w, before + done, part, before, EncodeBody(g, body, t));
        return;
      }
      EmittedOk(w, before + done, part);
      assert before + done + part.value == before + (done + part.value);
      done := done + part.value;
      n := n + 1;
    }
    PartsDone(g, fields, parts);
    assert done + [] == done;
    r := Ok(Unit);
    EmittedAll(w, before, done);
  }

  method WritePart(w: Writer, g: Grammar, field: ObjectField, part: Part) returns (r: Result<Unit, WriteError>)
    requires w.Valid() && ShapedPart(g, field, part)
    modifies w, w.output
    ensures Emitted(w, r.Ok?, old(w.Rep()), EncodePart(g, field, part)) && w.SameCapacity()
    decreases part
  {
    match part {
      case ChildPart(child) => r := WriteRoot(w, g, child);
      case ScalarPart(value) => r := Append(w, EncodeScalar(field.scalar, value));
      case BytesPart(bytes) => r := Append(w, bytes);
    }
  }

  lemma PartsUnfold(g: Grammar, fields: seq<ObjectField>, parts: seq<Part>, n: nat, done: seq<byte>)
    requires n < |parts| == |fields| && forall i :: 0 <= i < |parts| ==> ShapedPart(g, fields[i], parts[i])
    ensures Both(Some(done), EncodeParts(g, fields[n..], parts[n..])) ==
              (if EncodePart(g, fields[n], parts[n]).None? then None
               else Both(Some(done + EncodePart(g, fields[n], parts[n]).value), EncodeParts(g, fields[n + 1..], parts[n + 1..])))
  {
    hide EncodePart, ShapedPart;
    assert parts[n..][0] == parts[n] && parts[n..][1..] == parts[n + 1..];
    assert fields[n..][0] == fields[n] && fields[n..][1..] == fields[n + 1..];
    var part, more := EncodePart(g, fields[n], parts[n]), EncodeParts(g, fields[n + 1..], parts[n + 1..]);
    if part.Some? && more.Some? {
      assert done + (part.value + more.value) == done + part.value + more.value;
    }
  }

  lemma PartsDone(g: Grammar, fields: seq<ObjectField>, parts: seq<Part>)
    requires |fields| == |parts|
    ensures EncodeParts(g, fields[|parts|..], parts[|parts|..]) == Some([])
  {
  }

  lemma EmittedAll(w: Writer, before: seq<byte>, done: seq<byte>)
    requires w.Valid() && w.Rep() == before + done
    ensures Emitted(w, true, before, Some(done))
  {
  }

  /** Reserves the length, writes the left child and the bytes, patches the length, then
      writes the placed scalar and the right child. */
  method WriteDemand(w: Writer, g: Grammar, body: Body, t: BodyTree) returns (r: Result<Unit, WriteError>)
    requires w.Valid() && t.DemandTree? && ShapedBody(g, body, t)
    modifies w, w.output
    ensures Emitted(w, r.Ok?, old(w.Rep()), EncodeBody(g, body, t)) && w.SameCapacity()
    decreases t, 0
  {
    hide Emitted, Shaped, Encode, EncodeTail, Representable;
    ghost var before := w.Rep();
    var width := body.controller.width;
    var bodyStart := w.cursor;
    r := Append(w, Zeros(width));
    if r.Err? {
      PartFailed(w, before, Some(Zeros(width)), before, EncodeBody(g, body, t));
      return;
    }
    EmittedOk(w, before, Some(Zeros(width)));
    ghost var reserved := w.Rep();
    ghost var left := Encode(g, t.left);
    r := WriteRoot(w, g, t.left);
    if r.Err? {
      PartFailed(w, reserved, left, before, EncodeBody(g, body, t));
      return;
    }
    EmittedOk(w, reserved, left);
    if |t.tail.bytes| >= Pow256(width) {
      NothingEmitted(w, before);
      return Err(CountOverflow(|t.tail.bytes|));
    }
    var controller := EncodeUnsigned(body.controller.endian, |t.tail.bytes|, width);
    ghost var framed := before + controller + left.value;
    r := WriteTail(w, g, body, bodyStart, controller, before, left.value, t.tail);
    assert framed == before + (controller + left.value);
    EmittedTwice(w, r.Ok?, before, controller + left.value, EncodeTail(g, body, width + |left.value|, t.tail));
  }

  /** The stages after the left child, with the length still reserved at `bodyStart`. */
  method WriteTail(w: Writer, g: Grammar, body: Body, bodyStart: nat, controller: seq<byte>,
                   ghost before: seq<byte>, ghost left: seq<byte>, tail: DemandTail)
    returns (r: Result<Unit, WriteError>)
    requires w.Valid() && body.DemandBody? && Shaped(g, tail.right) && Representable(body.scalar, tail.scalar)
    requires bodyStart == |before| && w.Rep() == before + Zeros(|controller|) + left
    modifies w, w.output
    ensures Emitted(w, r.Ok?, before + controller + left, EncodeTail(g, body, |controller| + |left|, tail))
    ensures w.SameCapacity()
    decreases tail, 1
  {
    hide Emitted, Shaped, Encode, EncodeTail, Representable, EncodeScalar, ScalarPosition, Overlay;
    TailShape(g, body, |controller| + |left|, tail);
    ghost var framed := before + controller + left;
    ghost var behind := |controller| + |left|;
    ghost var whole := EncodeTail(g, body, behind, tail);
    ghost var was := w.Rep();
    r := Append(w, tail.bytes);
    if r.Err? {
      PartFailed(w, was, Some(tail.bytes), framed, whole);
      return;
    }
    EmittedOk(w, was, Some(tail.bytes));
    r := PatchAt(w, bodyStart, controller);
    assert was + tail.bytes == before + Zeros(|controller|) + (left + tail.bytes);
    PatchReserved(before, controller, left + tail.bytes);
    CountPatched(w, r.Ok?, before, controller, left + tail.bytes);
    if r.Err? {
      PartFailed(w, before, Some(controller + (left + tail.bytes)), framed, whole);
      return;
    }
    assert w.Rep() == framed + tail.bytes;
    var relative := ScalarPosition(w.cursor - bodyStart, body.pad, body.align);
    if relative.None? {
      NothingEmitted(w, framed);
      return Err(Layout);
    }
    var position := bodyStart + relative.value;
    r := WritePlaced(w, g, body, position, framed, behind, tail);
  }

  lemma TailShape(g: Grammar, body: Body, behind: nat, tail: DemandTail)
    requires body.DemandBody? && Shaped(g, tail.right) && Representable(body.scalar, tail.scalar)
    ensures ScalarPosition(behind + |tail.bytes|, body.pad, body.align).None? ==> EncodeTail(g, body, behind, tail).None?
    ensures EncodeTail(g, body, behind, tail).Some? ==> |EncodeTail(g, body, behind, tail).value| >= |tail.bytes|
  {
    hide Encode, ScalarPosition;
  }

  /** Fills to `position`, then writes the scalar and the right child. */
  method WritePlaced(w: Writer, g: Grammar, body: Body, position: nat, ghost framed: seq<byte>, ghost behind: nat, tail: DemandTail)
    returns (r: Result<Unit, WriteError>)
    requires w.Valid() && body.DemandBody? && Shaped(g, tail.right) && Representable(body.scalar, tail.scalar)
    requires w.Rep() == framed + tail.bytes && behind <= |framed|
    requires ScalarPosition(behind + |tail.bytes|, body.pad, body.align) == Some(position - (|framed| - behind))
    modifies w, w.output
    ensures Emitted(w, r.Ok?, framed, EncodeTail(g, body, behind, tail)) && w.SameCapacity()
    decreases tail, 0
  {
    hide Emitted, Shaped, Encode, Representable, EncodeScalar, ScalarPosition;
    ghost var whole := EncodeTail(g, body, behind, tail);
    ghost var was := w.Rep();
    ghost var gap := Zeros(position - |was|);
    if position > USIZE_MAX {
      TooLong(w, framed, whole);
      return Err(Layout);
    }
    r := FillTo(w, position);
    if r.Err? {
      PartFailed(w, was, Some(gap), framed, whole);
      return;
    }
    EmittedOk(w, was, Some(gap));
    var scalar := EncodeScalar(body.scalar, tail.scalar);
    r := Append(w, scalar);
    if r.Err? {
      PartFailed(w, was + gap, Some(scalar), framed, whole);
      return;
    }
    EmittedOk(w, was + gap, Some(scalar));
    assert w.Rep() == framed + (tail.bytes + gap + scalar);
    r := WriteRoot(w, g, tail.right);
    EmittedTwice(w, r.Ok?, framed, tail.bytes + gap + scalar, Encode(g, tail.right));
  }

  lemma TooLong(w: Writer, before: seq<byte>, whole: Option<seq<byte>>)
    requires whole.Some? ==> |before| + |whole.value| > USIZE_MAX
    ensures Emitted(w, false, before, whole)
  {
  }
}
