/** Recursive root grammars: a selector followed by one of five body shapes, the
    value trees they represent, and the reference reading of a nested tree. */
module Grammar {
  import opened Arith
  import opened Base

  /** A fixed-width stored integer. */
  datatype Scalar = Scalar(width: nat, endian: Endian, signed: bool)

  datatype ObjectField =
    | RecursiveField
    | ScalarField(scalar: Scalar)
    | BytesField(width: nat)

  /** A leaf is an ordinary schema known by the extent it frames at an offset. A demand
      body is a stored unsigned length, a child, that many bytes, a scalar placed by
      padding and alignment from the body start, and a second child. */
  datatype Body =
    | UnitBody
    | LeafBody(frame: (seq<byte>, nat) -> Option<nat>)
    | ArrayBody(count: Scalar)
    | ObjectBody(fields: seq<ObjectField>)
    | DemandBody(controller: Scalar, scalar: Scalar, pad: nat, align: Option<nat>)

  datatype Grammar = Grammar(selector: Scalar, variants: map<nat, Body>)

  datatype Tree = Tree(selector: nat, body: BodyTree)

  datatype BodyTree =
    | UnitTree
    | LeafTree(bytes: seq<byte>)
    | ArrayTree(items: seq<Tree>)
    | ObjectTree(parts: seq<Part>)
    | DemandTree(left: Tree, tail: DemandTail)

  datatype DemandTail = DemandTail(bytes: seq<byte>, scalar: int, right: Tree)

  datatype Part = ChildPart(child: Tree) | ScalarPart(value: int) | BytesPart(bytes: seq<byte>)

  /** A value read from a prefix of the input, with the length of that prefix. */
  datatype Parsed<+T> = NoParse | Parsed(value: T, end: nat) {
    function Extent(): Option<nat> {
      if Parsed? then Some(end) else None
    }
  }

  /** Adds bytes consumed earlier to an extent. */
  ghost function Further(w: nat, extent: Option<nat>): Option<nat> {
    if extent.Some? then Some(w + extent.value) else None
  }

  // ----- stored integers -----

  function DecodeScalar(scalar: Scalar, bytes: seq<byte>): int
    requires |bytes| == scalar.width
  {
    var raw := DecodeUnsigned(scalar.endian, bytes);
    if scalar.signed && 2 * raw >= Pow256(scalar.width) then raw - Pow256(scalar.width) else raw
  }

  predicate Representable(scalar: Scalar, value: int) {
    if scalar.signed then -2 * value <= Pow256(scalar.width) && 2 * value < Pow256(scalar.width)
    else 0 <= value < Pow256(scalar.width)
  }

  function EncodeScalar(scalar: Scalar, value: int): (bytes: seq<byte>)
    requires Representable(scalar, value)
    ensures |bytes| == scalar.width
  {
    EncodeUnsigned(scalar.endian, if value < 0 then value + Pow256(scalar.width) else value, scalar.width)
  }

  lemma ScalarRoundTrip(scalar: Scalar, value: int)
    requires Representable(scalar, value)
    ensures DecodeScalar(scalar, EncodeScalar(scalar, value)) == value
  {
    DecodeEncode(scalar.endian, if value < 0 then value + Pow256(scalar.width) else value, scalar.width);
  }

  /** What sign and width mean: an unsigned scalar is the number its bytes spell, a signed one
      that number or the one a whole range below it, whichever is of the signed range. */
  lemma ScalarMeans(scalar: Scalar, bytes: seq<byte>)
    requires |bytes| == scalar.width
    ensures var v, raw, range := DecodeScalar(scalar, bytes), DecodeUnsigned(scalar.endian, bytes), Pow256(scalar.width);
            if scalar.signed then (v == raw || v == raw - range) && -2 * v <= range && 2 * v < range
            else v == raw < range
  {
    EncodeDecode(scalar.endian, bytes);
  }

  /** The values of a scalar are those that some bytes of its width decode to. */
  lemma RepresentableExactly(scalar: Scalar, value: int)
    ensures Representable(scalar, value) <==> exists bytes :: |bytes| == scalar.width && DecodeScalar(scalar, bytes) == value
  {
    hide Representable, DecodeScalar, EncodeScalar;
    if Representable(scalar, value) {
      ScalarRoundTrip(scalar, value);
      assert |EncodeScalar(scalar, value)| == scalar.width;
    }
    if bytes :| |bytes| == scalar.width && DecodeScalar(scalar, bytes) == value {
      ScalarBytes(scalar, bytes);
    }
  }

  lemma ScalarBytes(scalar: Scalar, bytes: seq<byte>)
    requires |bytes| == scalar.width
    ensures Representable(scalar, DecodeScalar(scalar, bytes)) && EncodeScalar(scalar, DecodeScalar(scalar, bytes)) == bytes
  {
    EncodeDecode(scalar.endian, bytes);
  }

  // ----- demand placement -----

  /** The next multiple of `alignment`; unavailable for a zero alignment. */
  function Aligned(position: nat, alignment: nat): (r: Option<nat>)
    ensures r.Some? ==> r.value >= position
  {
    if alignment == 0 then None
    else if position % alignment == 0 then Some(position)
    else Some(position + (alignment - position % alignment))
  }

  /** Alignment moves to the first multiple at or after the position. */
  lemma AlignedIsFirst(position: nat, alignment: nat, multiple: nat)
    requires alignment > 0
    ensures Aligned(position, alignment).Some? && Aligned(position, alignment).value % alignment == 0
    ensures multiple >= position && multiple % alignment == 0 ==> Aligned(position, alignment).value <= multiple
  {
    var q, r := position / alignment, position % alignment;
    DivMod(position, alignment);
    if r > 0 {
      Distribute(q, 1, alignment);
      DivModUnique(position + (alignment - r), alignment, q + 1, 0);
    }
    if multiple >= position && multiple % alignment == 0 {
      DivMod(multiple, alignment);
      if multiple < Aligned(position, alignment).value {
        MultiplesApart(q, r, multiple / alignment, alignment);
      }
    }
  }

  /** Alignment in machine words: unavailable too when the next multiple does not fit. */
  function CheckedAlign(position: usize, alignment: nat): (r: Option<nat>)
    ensures r == if Aligned(position, alignment).Some? && Aligned(position, alignment).value <= USIZE_MAX
                 then Aligned(position, alignment) else None
  {
    if alignment == 0 then None
    else
      var remainder := position % alignment;
      if remainder == 0 then Some(position) else CheckedAdd(position, alignment - remainder)
  }

  /** It gives the first multiple that fits, exactly when some multiple does. */
  lemma CheckedAlignIsFirst(position: usize, alignment: usize)
    ensures CheckedAlign(position, alignment).Some? <==>
              alignment > 0 && exists multiple: usize :: position <= multiple && multiple % alignment == 0
    ensures CheckedAlign(position, alignment).Some? ==>
              var first := CheckedAlign(position, alignment).value;
              && position <= first <= USIZE_MAX && first % alignment == 0
              && forall multiple: usize :: position <= multiple && multiple % alignment == 0 ==> first <= multiple
  {
    if alignment > 0 {
      var next := Aligned(position, alignment).value;
      AlignedIsFirst(position, alignment, position);
      forall multiple: usize | position <= multiple && multiple % alignment == 0 ensures next <= multiple {
        AlignedIsFirst(position, alignment, multiple);
      }
    }
  }

  /** No multiple lies strictly between a position and the next one. */
  lemma MultiplesApart(q: nat, r: nat, m: nat, a: nat)
    requires 0 <= r < a && m * a >= q * a + r
    ensures m * a >= (if r == 0 then q else q + 1) * a
  {
    if m <= q {
      Mono(m, a, q, a);
      assert r == 0 && m * a == q * a;
    } else {
      Mono(q + 1, a, m, a);
    }
  }

  /** Where the scalar starts, counted from the body start. */
  function ScalarPosition(bytesEnd: nat, pad: nat, align: Option<nat>): (r: Option<nat>)
    ensures r.Some? ==> r.value >= bytesEnd
  {
    match align
    case None => Some(bytesEnd + pad)
    case Some(a) => Aligned(bytesEnd + pad, a)
  }

  /** A position that leaves room for the padding and is a multiple of the alignment. */
  predicate Allowed(pad: nat, align: Option<nat>, cursor: nat, position: nat) {
    cursor + pad <= position && (align.Some? ==> align.value > 0 && position % align.value == 0)
  }

  /** The first allowed position, if there is one. */
  ghost predicate FirstAllowed(pad: nat, align: Option<nat>, cursor: nat, r: Option<nat>) {
    match r
    case None => forall position: nat :: !Allowed(pad, align, cursor, position)
    case Some(first) =>
      && Allowed(pad, align, cursor, first)
      && forall position: nat :: Allowed(pad, align, cursor, position) ==> first <= position
  }

  lemma ScalarPositionIsFirst(bytesEnd: nat, pad: nat, align: Option<nat>)
    ensures FirstAllowed(pad, align, bytesEnd, ScalarPosition(bytesEnd, pad, align))
  {
    if align.Some? && align.value > 0 {
      AlignedIsFirst(bytesEnd + pad, align.value, bytesEnd + pad);
      var first := Aligned(bytesEnd + pad, align.value).value;
      forall position: nat | Allowed(pad, align, bytesEnd, position) ensures first <= position {
        AlignedIsFirst(bytesEnd + pad, align.value, position);
      }
    }
  }

  // ----- reference reading -----

  /** Reads one root: its selector, then its body with one depth level spent. */
  function ParseRoot(g: Grammar, input: seq<byte>, at: nat, depth: nat): (r: Parsed<Tree>)
    ensures r.Parsed? ==> g.selector.width <= r.end <= |input|
    decreases depth, 0, 0
  {
    var w := g.selector.width;
    if depth == 0 || |input| < w then NoParse
    else
      var selector := DecodeUnsigned(g.selector.endian, input[..w]);
      if selector !in g.variants then NoParse
      else
        match ParseBody(g, g.variants[selector], input[w..], at + w, depth - 1)
        case NoParse => NoParse
        case Parsed(body, end) => Parsed(Tree(selector, body), w + end)
  }

  /** Reads one body whose children may use `depth` levels. */
  function ParseBody(g: Grammar, body: Body, input: seq<byte>, at: nat, depth: nat): (r: Parsed<BodyTree>)
    ensures r.Parsed? ==> r.end <= |input|
    decreases depth, 2, 0
  {
    match body
    case UnitBody => Parsed(UnitTree, 0)
    case LeafBody(frame) =>
      var extent := frame(input, at);
      if extent.None? || extent.value > |input| then NoParse
      else Parsed(LeafTree(input[..extent.value]), extent.value)
    case ArrayBody(count) =>
      if |input| < count.width then NoParse
      else
        var n := DecodeScalar(count, input[..count.width]);
        if !(0 <= n <= U32_MAX) then NoParse
        else
          (match ParseItems(g, n, input[count.width..], at + count.width, depth)
           case NoParse => NoParse
           case Parsed(items, end) => Parsed(ArrayTree(items), count.width + end))
    case ObjectBody(fields) =>
      (match ParseFields(g, fields, input, at, depth)
       case NoParse => NoParse
       case Parsed(parts, end) => Parsed(ObjectTree(parts), end))
    case DemandBody(_, _, _, _) => ParseDemand(g, body, input, at, depth)
  }

  /** Reads a demand body: its stored length, its left child, then its tail. */
  function ParseDemand(g: Grammar, body: Body, input: seq<byte>, at: nat, depth: nat): (r: Parsed<BodyTree>)
    requires body.DemandBody?
    ensures r.Parsed? ==> r.end <= |input|
    decreases depth, 1, 1
  {
    var w := body.controller.width;
    if |input| < w then NoParse
    else
      match ParseRoot(g, input[w..], at + w, depth)
      case NoParse => NoParse
      case Parsed(left, n) =>
        var extent := DecodeUnsigned(body.controller.endian, input[..w]);
        match ParseDemandTail(g, body, extent, w + n, input[w + n..], at + w + n, depth)
        case NoParse => NoParse
        case Parsed(tail, m) => Parsed(DemandTree(left, tail), w + n + m)
  }

  /** Reads `n` consecutive roots. */
  function ParseItems(g: Grammar, n: nat, input: seq<byte>, at: nat, depth: nat): (r: Parsed<seq<Tree>>)
    ensures r.Parsed? ==> r.end <= |input| && |r.value| == n
    decreases depth, 1, n
  {
    if n == 0 then Parsed([], 0)
    else
      match ParseRoot(g, input, at, depth)
      case NoParse => NoParse
      case Parsed(item, end) =>
        match ParseItems(g, n - 1, input[end..], at + end, depth)
        case NoParse => NoParse
        case Parsed(items, more) => Parsed([item] + items, end + more)
  }

  /** Reads object fields in order. */
  function ParseFields(g: Grammar, fields: seq<ObjectField>, input: seq<byte>, at: nat, depth: nat): (r: Parsed<seq<Part>>)
    ensures r.Parsed? ==> r.end <= |input| && |r.value| == |fields|
    decreases depth, 1, |fields|
  {
    if fields == [] then Parsed([], 0)
    else
      match ParseField(g, fields[0], input, at, depth)
      case NoParse => NoParse
      case Parsed(part, end) =>
        match ParseFields(g, fields[1..], input[end..], at + end, depth)
        case NoParse => NoParse
        case Parsed(parts, more) => Parsed([part] + parts, end + more)
  }

  function ParseField(g: Grammar, field: ObjectField, input: seq<byte>, at: nat, depth: nat): (r: Parsed<Part>)
    ensures r.Parsed? ==> r.end <= |input|
    decreases depth, 1, 0
  {
    match field
    case RecursiveField =>
      (match ParseRoot(g, input, at, depth)
       case NoParse => NoParse
       case Parsed(child, end) => Parsed(ChildPart(child), end))
    case ScalarField(scalar) =>
      if |input| < scalar.width then NoParse
      else Parsed(ScalarPart(DecodeScalar(scalar, input[..scalar.width])), scalar.width)
    case BytesField(width) =>
      if |input| < width then NoParse else Parsed(BytesPart(input[..width]), width)
  }

  /** Reads what follows the left child of a demand body: `extent` raw bytes, the
      placed scalar and the right child. `behind` bytes of the body were consumed. */
  function ParseDemandTail(g: Grammar, body: Body, extent: nat, behind: nat, input: seq<byte>, at: nat, depth: nat)
    : (r: Parsed<DemandTail>)
    requires body.DemandBody?
    ensures r.Parsed? ==> r.end <= |input|
    decreases depth, 1, 0
  {
    if extent > |input| then NoParse
    else
      match ScalarPosition(behind + extent, body.pad, body.align)
      case None => NoParse
      case Some(position) =>
        var start := position - behind;
        var end := start + body.scalar.width;
        if end > |input| then NoParse
        else
          match ParseRoot(g, input[end..], at + end, depth)
          case NoParse => NoParse
          case Parsed(right, n) =>
            Parsed(DemandTail(input[..extent], DecodeScalar(body.scalar, input[start..end]), right), end + n)
  }

  /** A root is a selector that names a variant, then the body of that variant, one level
      deeper: nothing for a unit, and for a leaf what its schema frames there. */
  lemma RootLies(g: Grammar, input: seq<byte>, at: nat, depth: nat)
    requires ParseRoot(g, input, at, depth).Parsed?
    ensures var Parsed(Tree(selector, body), end) := ParseRoot(g, input, at, depth);
            var w := g.selector.width;
            && depth > 0 && w <= end <= |input|
            && selector == DecodeUnsigned(g.selector.endian, input[..w]) && selector in g.variants
            && ParseBody(g, g.variants[selector], input[w..], at + w, depth - 1) == Parsed(body, end - w)
            && (body.UnitTree? ==> end == w)
            && (body.LeafTree? ==>
                  && g.variants[selector].LeafBody? && g.variants[selector].frame(input[w..], at + w) == Some(end - w)
                  && body.bytes == input[w..end])
  {
  }

  /** Where the parts of a demand body lie, counted from its start: the stored length, the
      left child, as many bytes as the length says, the scalar at the first allowed position
      after them, and the right child. */
  lemma DemandLies(g: Grammar, body: Body, input: seq<byte>, at: nat, depth: nat) returns (bytesAt: nat, scalarAt: nat)
    requires body.DemandBody? && ParseDemand(g, body, input, at, depth).Parsed?
    ensures var Parsed(DemandTree(left, DemandTail(bytes, scalar, right)), end) := ParseDemand(g, body, input, at, depth);
            var w, bytesEnd, scalarEnd := body.controller.width, bytesAt + |bytes|, scalarAt + body.scalar.width;
            && w <= bytesAt <= bytesEnd <= scalarAt <= scalarEnd <= end <= |input|
            && |bytes| == DecodeUnsigned(body.controller.endian, input[..w])
            && ParseRoot(g, input[w..], at + w, depth) == Parsed(left, bytesAt - w)
            && bytes == input[bytesAt..bytesEnd]
            && FirstAllowed(body.pad, body.align, bytesEnd, Some(scalarAt))
            && scalar == DecodeScalar(body.scalar, input[scalarAt..scalarEnd])
            && ParseRoot(g, input[scalarEnd..], at + scalarEnd, depth) == Parsed(right, end - scalarEnd)
  {
    hide ParseRoot, DecodeScalar, DecodeUnsigned, ScalarPosition, FirstAllowed;
    var w := body.controller.width;
    var Parsed(left, n) := ParseRoot(g, input[w..], at + w, depth);
    var extent := DecodeUnsigned(body.controller.endian, input[..w]);
    bytesAt := w + n;
    scalarAt := ScalarPosition(bytesAt + extent, body.pad, body.align).value;
    ScalarPositionIsFirst(bytesAt + extent, body.pad, body.align);
    var tail, end := input[bytesAt..], scalarAt - bytesAt + body.scalar.width;
    assert tail[..extent] == input[bytesAt..bytesAt + extent];
    assert tail[scalarAt - bytesAt..end] == input[scalarAt..bytesAt + end];
    assert tail[end..] == input[bytesAt + end..];
  }

  /** The root at `input[start..]` is read as `item` and ends at `end`. */
  ghost predicate RootAt(g: Grammar, input: seq<byte>, at: nat, depth: nat, item: Tree, start: nat, end: nat) {
    start <= end <= |input| && ParseRoot(g, input[start..], at + start, depth) == Parsed(item, end - start)
  }

  /** The items of an array are read one after the other, each where the one before it ends. */
  ghost predicate RootsAt(g: Grammar, input: seq<byte>, at: nat, depth: nat, items: seq<Tree>, ends: seq<nat>) {
    && |ends| == |items| + 1 && ends[0] == 0
    && forall k, next :: 0 <= k < |items| && next == k + 1 ==> RootAt(g, input, at, depth, items[k], ends[k], ends[next])
  }

  lemma {:induction false} ItemsLie(g: Grammar, n: nat, input: seq<byte>, at: nat, depth: nat) returns (ends: seq<nat>)
    requires ParseItems(g, n, input, at, depth).Parsed?
    ensures var Parsed(items, end) := ParseItems(g, n, input, at, depth);
            |items| == n && RootsAt(g, input, at, depth, items, ends) && ends[n] == end
    decreases n
  {
    hide ParseRoot, RootAt;
    if n == 0 {
      ends := [0];
    } else {
      var Parsed(item, end) := ParseRoot(g, input, at, depth);
      var Parsed(items, _) := ParseItems(g, n - 1, input[end..], at + end, depth);
      var later := ItemsLie(g, n - 1, input[end..], at + end, depth);
      ends := [0] + Shifted(later, end);
      RootsCons(g, input, at, depth, item, items, end, later);
    }
  }

  lemma RootsCons(g: Grammar, input: seq<byte>, at: nat, depth: nat, item: Tree, items: seq<Tree>, end: nat, later: seq<nat>)
    requires end <= |input| && ParseRoot(g, input, at, depth) == Parsed(item, end)
    requires RootsAt(g, input[end..], at + end, depth, items, later)
    ensures RootsAt(g, input, at, depth, [item] + items, [0] + Shifted(later, end))
  {
    hide ParseRoot, RootAt;
    var all, ends := [item] + items, [0] + Shifted(later, end);
    forall k, next | 0 <= k < |all| && next == k + 1 ensures RootAt(g, input, at, depth, all[k], ends[k], ends[next]) {
      if k > 0 {
        var before := k - 1;
        assert RootAt(g, input[end..], at + end, depth, items[before], later[before], later[k]);
        RootLater(g, input, at, depth, items[before], end, later[before], later[k]);
      } else {
        RootFirst(g, input, at, depth, item, end);
      }
    }
  }

  lemma RootFirst(g: Grammar, input: seq<byte>, at: nat, depth: nat, item: Tree, end: nat)
    requires end <= |input| && ParseRoot(g, input, at, depth) == Parsed(item, end)
    ensures RootAt(g, input, at, depth, item, 0, end)
  {
    assert input[0..] == input;
  }

  lemma RootLater(g: Grammar, input: seq<byte>, at: nat, depth: nat, item: Tree, shift: nat, start: nat, end: nat)
    requires shift <= |input| && RootAt(g, input[shift..], at + shift, depth, item, start, end)
    ensures RootAt(g, input, at, depth, item, start + shift, end + shift)
  {
    hide ParseRoot;
    assert input[shift..][start..] == input[start + shift..];
  }

  function Shifted(ends: seq<nat>, shift: nat): (shifted: seq<nat>)
    ensures |shifted| == |ends| && forall i :: 0 <= i < |ends| ==> shifted[i] == ends[i] + shift
  {
    seq(|ends|, i requires 0 <= i < |ends| => ends[i] + shift)
  }

  /** An array body is a stored count, which fits 32 bits, and that many roots. */
  lemma ArrayLies(g: Grammar, body: Body, input: seq<byte>, at: nat, depth: nat) returns (ends: seq<nat>)
    requires body.ArrayBody? && ParseBody(g, body, input, at, depth).Parsed?
    ensures var Parsed(ArrayTree(items), end) := ParseBody(g, body, input, at, depth);
            var w := body.count.width;
            && w <= end <= |input| && |items| == DecodeScalar(body.count, input[..w]) <= U32_MAX
            && RootsAt(g, input[w..], at + w, depth, items, ends) && ends[|items|] == end - w
  {
    hide ParseRoot, ParseItems, DecodeScalar;
    var w := body.count.width;
    ends := ItemsLie(g, DecodeScalar(body.count, input[..w]), input[w..], at + w, depth);
  }

  /** A field at `input[start..end]`: a root, an integer of its width or that many bytes. */
  ghost predicate FieldAt(g: Grammar, field: ObjectField, input: seq<byte>, at: nat, depth: nat, part: Part, start: nat, end: nat) {
    && start <= end <= |input|
    && match field
       case RecursiveField => part.ChildPart? && RootAt(g, input, at, depth, part.child, start, end)
       case ScalarField(scalar) => end - start == scalar.width && part == ScalarPart(DecodeScalar(scalar, input[start..end]))
       case BytesField(width) => end - start == width && part == BytesPart(input[start..end])
  }

  /** The fields of an object are read in order, each where the one before it ends. */
  ghost predicate FieldsAt(g: Grammar, fields: seq<ObjectField>, input: seq<byte>, at: nat, depth: nat, parts: seq<Part>, ends: seq<nat>) {
    && |parts| == |fields| && |ends| == |fields| + 1 && ends[0] == 0
    && forall k, next :: 0 <= k < |fields| && next == k + 1 ==>
         FieldAt(g, fields[k], input, at, depth, parts[k], ends[k], ends[next])
  }

  lemma {:induction false} FieldsLie(g: Grammar, fields: seq<ObjectField>, input: seq<byte>, at: nat, depth: nat) returns (ends: seq<nat>)
    requires ParseFields(g, fields, input, at, depth).Parsed?
    ensures var Parsed(parts, end) := ParseFields(g, fields, input, at, depth);
            FieldsAt(g, fields, input, at, depth, parts, ends) && ends[|fields|] == end
    decreases |fields|
  {
    hide ParseField, FieldAt;
    if fields == [] {
      ends := [0];
    } else {
      var Parsed(part, end) := ParseField(g, fields[0], input, at, depth);
      var Parsed(parts, _) := ParseFields(g, fields[1..], input[end..], at + end, depth);
      var later := FieldsLie(g, fields[1..], input[end..], at + end, depth);
      ends := [0] + Shifted(later, end);
      FieldsCons(g, fields, input, at, depth, part, parts, end, later);
    }
  }

  lemma FieldsCons(g: Grammar, fields: seq<ObjectField>, input: seq<byte>, at: nat, depth: nat, part: Part, parts: seq<Part>, end: nat, later: seq<nat>)
    requires fields != [] && end <= |input| && ParseField(g, fields[0], input, at, depth) == Parsed(part, end)
    requires FieldsAt(g, fields[1..], input[end..], at + end, depth, parts, later)
    ensures FieldsAt(g, fields, input, at, depth, [part] + parts, [0] + Shifted(later, end))
  {
    hide ParseField, FieldAt;
    var all, ends := [part] + parts, [0] + Shifted(later, end);
    forall k, next | 0 <= k < |fields| && next == k + 1
      ensures FieldAt(g, fields[k], input, at, depth, all[k], ends[k], ends[next])
    {
      if k > 0 {
        var before := k - 1;
        assert FieldAt(g, fields[1..][before], input[end..], at + end, depth, parts[before], later[before], later[k]);
        FieldLater(g, fields[k], input, at, depth, parts[before], end, later[before], later[k]);
      } else {
        FieldLies(g, fields[0], input, at, depth);
      }
    }
  }

  lemma FieldLies(g: Grammar, field: ObjectField, input: seq<byte>, at: nat, depth: nat)
    requires ParseField(g, field, input, at, depth).Parsed?
    ensures var Parsed(part, end) := ParseField(g, field, input, at, depth); FieldAt(g, field, input, at, depth, part, 0, end)
  {
    hide ParseRoot, DecodeScalar;
    var end := ParseField(g, field, input, at, depth).end;
    assert input[0..] == input && input[0..end] == input[..end];
  }

  lemma FieldLater(g: Grammar, field: ObjectField, input: seq<byte>, at: nat, depth: nat, part: Part, shift: nat, start: nat, end: nat)
    requires shift <= |input| && FieldAt(g, field, input[shift..], at + shift, depth, part, start, end)
    ensures FieldAt(g, field, input, at, depth, part, start + shift, end + shift)
  {
    hide ParseRoot, RootAt, DecodeScalar;
    assert input[shift..][start..end] == input[start + shift..end + shift];
    if field.RecursiveField? {
      RootLater(g, input, at, depth, part.child, shift, start, end);
    }
  }
}
