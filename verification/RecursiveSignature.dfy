/** What a walk over one root reports besides its extent: a structural signature mixed
    from selectors and leaf widths in reading order, and how deep roots were nested. */
module RecursiveSignature {
  import opened Base
  import opened Bits
  import opened Grammar

  const WORD_LIMIT: nat := 0x1_0000_0000_0000_0000
  const SIGNATURE_SEED: nat := 0xcbf2_9ce4_8422_2325
  const SIGNATURE_STEP: nat := 0x9e37_79b9_7f4a_7c15
  const SIGNATURE_END: nat := 0x1eaf_0000_0000_0000

  /** One 64-bit word rotated left. */
  function RotateLeft(x: nat, k: nat): nat
    requires k <= 64
  {
    Or(Low(Shl(x, k), 64), Shr(x, 64 - k))
  }

  /** Mixes one word into a signature, wrapping at 64 bits. */
  function Mix(shape: nat, word: nat): (mixed: nat)
    ensures mixed < WORD_LIMIT
  {
    (RotateLeft(Xor(shape, word), 13) + SIGNATURE_STEP) % WORD_LIMIT
  }

  /** The word that ends a leaf of this width. */
  function LeafWord(width: nat): nat {
    Xor(SIGNATURE_END, RotateLeft(width % WORD_LIMIT, 23))
  }

  /** The state of one walk over roots whose selector is `scalar`. No signature is kept
      before the first recursive body. */
  datatype Trace = Trace(scalar: Scalar, active: bool, shape: nat, nested: nat)

  function Fresh(scalar: Scalar): Trace {
    Trace(scalar, false, 0, 0)
  }

  /** A selector as a 64-bit word: a signed one is extended by its sign. */
  function SelectorWord(scalar: Scalar, selector: nat): nat {
    if scalar.signed && 2 * selector >= Pow256(scalar.width)
    then (selector - Pow256(scalar.width)) % WORD_LIMIT
    else selector % WORD_LIMIT
  }

  /** What one walk over a root reports. */
  datatype Measure = Measure(consumed: nat, shape: nat, nestedDepth: nat)

  function WidthsOf(m: seq<Measure>): (w: seq<nat>)
    ensures |w| == |m| && forall i :: 0 <= i < |m| ==> w[i] == m[i].consumed
  {
    seq(|m|, i requires 0 <= i < |m| => m[i].consumed)
  }

  /** A unit root is passed. */
  function PassUnit(t: Trace, selector: nat): Trace {
    if t.active then t.(shape := Mix(Mix(t.shape, SelectorWord(t.scalar, selector)), SIGNATURE_END)) else t
  }

  /** A leaf root of `width` body bytes is passed. */
  function PassLeaf(t: Trace, selector: nat, width: nat): Trace {
    if t.active then t.(shape := Mix(Mix(t.shape, SelectorWord(t.scalar, selector)), LeafWord(width))) else t
  }

  /** A recursive body starts. */
  function PassStart(t: Trace, selector: nat): Trace {
    t.(active := true, shape := Mix(if t.active then t.shape else SIGNATURE_SEED, SelectorWord(t.scalar, selector)))
  }

  /** A child root is due with `level` bodies open. */
  function Deepen(t: Trace, level: nat): Trace {
    t.(nested := Max(t.nested, Min(level, U32_MAX)))
  }

  // ----- what a whole reading leaves -----

  function RootTrace(tree: Tree, level: nat, t: Trace): Trace
    decreases tree, 0
  {
    match tree.body
    case UnitTree => PassUnit(t, tree.selector)
    case LeafTree(bytes) => PassLeaf(t, tree.selector, |bytes|)
    case _ => BodyTrace(tree.body, level + 1, PassStart(t, tree.selector))
  }

  /** The children of a body, each at `level`. */
  function BodyTrace(body: BodyTree, level: nat, t: Trace): Trace
    decreases body, 0
  {
    match body
    case UnitTree => t
    case LeafTree(_) => t
    case ArrayTree(items) => ItemsTrace(items, level, t)
    case ObjectTree(parts) => PartsTrace(parts, level, t)
    case DemandTree(left, tail) => ChildTrace(tail.right, level, ChildTrace(left, level, t))
  }

  function ChildTrace(tree: Tree, level: nat, t: Trace): Trace
    decreases tree, 1
  {
    RootTrace(tree, level, Deepen(t, level))
  }

  function ItemsTrace(items: seq<Tree>, level: nat, t: Trace): Trace
    decreases items, 0
  {
    if items == [] then t else ItemsTrace(items[1..], level, ChildTrace(items[0], level, t))
  }

  function PartsTrace(parts: seq<Part>, level: nat, t: Trace): Trace
    decreases parts, 0
  {
    if parts == [] then t else PartsTrace(parts[1..], level, PartTrace(parts[0], level, t))
  }

  function PartTrace(part: Part, level: nat, t: Trace): Trace
    decreases part, 0
  {
    if part.ChildPart? then ChildTrace(part.child, level, t) else t
  }

  /** The measure of a root read as `tree` from `consumed` bytes. */
  function MeasureOf(scalar: Scalar, tree: Tree, consumed: nat): (m: Measure)
    ensures m.consumed == consumed
  {
    var t := RootTrace(tree, 0, Fresh(scalar));
    Measure(consumed, t.shape, t.nested)
  }

  // ----- what a trace depends on -----

  /** A tree without its payload: selectors, children and leaf widths are left. */
  function Skeleton(tree: Tree): Tree
    decreases tree, 0
  {
    Tree(tree.selector, BodySkeleton(tree.body))
  }

  function BodySkeleton(body: BodyTree): BodyTree
    decreases body, 0
  {
    match body
    case UnitTree => UnitTree
    case LeafTree(bytes) => LeafTree(Zeros(|bytes|))
    case ArrayTree(items) => ArrayTree(ItemsSkeleton(items))
    case ObjectTree(parts) => ObjectTree(PartsSkeleton(parts))
    case DemandTree(left, tail) => DemandTree(Skeleton(left), DemandTail([], 0, Skeleton(tail.right)))
  }

  function ItemsSkeleton(items: seq<Tree>): seq<Tree>
    decreases items, 0
  {
    if items == [] then [] else [Skeleton(items[0])] + ItemsSkeleton(items[1..])
  }

  function PartsSkeleton(parts: seq<Part>): seq<Part>
    decreases parts, 0
  {
    if parts == [] then [] else [PartSkeleton(parts[0])] + PartsSkeleton(parts[1..])
  }

  function PartSkeleton(part: Part): Part
    decreases part, 0
  {
    match part
    case ChildPart(child) => ChildPart(Skeleton(child))
    case ScalarPart(_) => ScalarPart(0)
    case BytesPart(_) => BytesPart([])
  }

  /** Neither the stored bytes and scalars nor the length of a demand body is mixed in. */
  lemma {:induction false} RootSkeleton(tree: Tree, level: nat, t: Trace)
    ensures RootTrace(Skeleton(tree), level, t) == RootTrace(tree, level, t)
    decreases tree, 0
  {
    hide PassStart, PassLeaf, PassUnit;
    BodySkeletonTrace(tree.body, level + 1, PassStart(t, tree.selector));
  }

  lemma {:induction false} BodySkeletonTrace(body: BodyTree, level: nat, t: Trace)
    ensures BodyTrace(BodySkeleton(body), level, t) == BodyTrace(body, level, t)
    decreases body, 0
  {
    match body
    case UnitTree =>
    case LeafTree(_) =>
    case ArrayTree(items) => ItemsSkeletonTrace(items, level, t);
    case ObjectTree(parts) => PartsSkeletonTrace(parts, level, t);
    case DemandTree(left, tail) =>
      RootSkeleton(left, level, Deepen(t, level));
      RootSkeleton(tail.right, level, Deepen(ChildTrace(left, level, t), level));
  }

  lemma {:induction false} ItemsSkeletonTrace(items: seq<Tree>, level: nat, t: Trace)
    ensures ItemsTrace(ItemsSkeleton(items), level, t) == ItemsTrace(items, level, t)
    decreases items, 0
  {
    hide RootTrace, Skeleton;
    if items != [] {
      RootSkeleton(items[0], level, Deepen(t, level));
      ItemsSkeletonTrace(items[1..], level, ChildTrace(items[0], level, t));
      assert ItemsSkeleton(items)[1..] == ItemsSkeleton(items[1..]);
    }
  }

  lemma {:induction false} PartsSkeletonTrace(parts: seq<Part>, level: nat, t: Trace)
    ensures PartsTrace(PartsSkeleton(parts), level, t) == PartsTrace(parts, level, t)
    decreases parts, 0
  {
    hide PartTrace, PartSkeleton;
    if parts != [] {
      PartSkeletonTrace(parts[0], level, t);
      PartsSkeletonTrace(parts[1..], level, PartTrace(parts[0], level, t));
      assert PartsSkeleton(parts)[1..] == PartsSkeleton(parts[1..]);
    }
  }

  lemma {:induction false} PartSkeletonTrace(part: Part, level: nat, t: Trace)
    ensures PartTrace(PartSkeleton(part), level, t) == PartTrace(part, level, t)
    decreases part, 0
  {
    if part.ChildPart? {
      RootSkeleton(part.child, level, Deepen(t, level));
    }
  }

  // ----- a signature is a fold -----

  /** The words of a tree in reading order: every selector, an end for every unit and the
      width of every leaf. */
  function Words(scalar: Scalar, tree: Tree): seq<nat>
    decreases tree, 0
  {
    [SelectorWord(scalar, tree.selector)] +
    match tree.body
    case UnitTree => [SIGNATURE_END]
    case LeafTree(bytes) => [LeafWord(|bytes|)]
    case _ => BodyWords(scalar, tree.body)
  }

  function BodyWords(scalar: Scalar, body: BodyTree): seq<nat>
    decreases body, 0
  {
    match body
    case UnitTree => []
    case LeafTree(_) => []
    case ArrayTree(items) => ItemsWords(scalar, items)
    case ObjectTree(parts) => PartsWords(scalar, parts)
    case DemandTree(left, tail) => Words(scalar, left) + Words(scalar, tail.right)
  }

  function ItemsWords(scalar: Scalar, items: seq<Tree>): seq<nat>
    decreases items, 0
  {
    if items == [] then [] else Words(scalar, items[0]) + ItemsWords(scalar, items[1..])
  }

  function PartsWords(scalar: Scalar, parts: seq<Part>): seq<nat>
    decreases parts, 0
  {
    if parts == [] then []
    else PartWords(scalar, parts[0]) + PartsWords(scalar, parts[1..])
  }

  function PartWords(scalar: Scalar, part: Part): seq<nat>
    decreases part, 0
  {
    if part.ChildPart? then Words(scalar, part.child) else []
  }

  function Folded(shape: nat, words: seq<nat>): nat
    decreases |words|
  {
    hide Mix;
    if words == [] then shape else Folded(Mix(shape, words[0]), words[1..])
  }

  lemma {:induction false} FoldedTwice(shape: nat, a: seq<nat>, b: seq<nat>)
    ensures Folded(shape, a + b) == Folded(Folded(shape, a), b)
    decreases |a|
  {
    hide Mix;
    if a == [] {
      assert a + b == b;
    } else {
      FoldedTwice(Mix(shape, a[0]), a[1..], b);
      assert (a + b)[1..] == a[1..] + b;
    }
  }

  /** `after` mixed those words into an active trace. */
  ghost predicate Mixed(t: Trace, after: Trace, words: seq<nat>) {
    after.active && after.scalar == t.scalar && after.shape == Folded(t.shape, words)
  }

  lemma MixedThen(t: Trace, u: Trace, v: Trace, a: seq<nat>, b: seq<nat>)
    requires Mixed(t, u, a) && Mixed(u, v, b)
    ensures Mixed(t, v, a + b)
  {
    FoldedTwice(t.shape, a, b);
  }

  lemma FoldedShort(shape: nat, x: nat, y: nat)
    ensures Folded(shape, []) == shape && Folded(shape, [x]) == Mix(shape, x) && Folded(shape, [x, y]) == Mix(Mix(shape, x), y)
  {
    hide Mix;
    assert [x][1..] == [] && [x, y][1..] == [y] && [y][1..] == [];
    assert Folded(Mix(shape, x), [y]) == Folded(Mix(Mix(shape, x), y), []);
  }

  lemma {:induction false} RootFold(tree: Tree, level: nat, t: Trace)
    requires t.active
    ensures Mixed(t, RootTrace(tree, level, t), Words(t.scalar, tree))
    decreases tree, 0
  {
    hide Mix, LeafWord, SelectorWord, Folded, BodyTrace, BodyWords;
    var s := SelectorWord(t.scalar, tree.selector);
    match tree.body
    case UnitTree =>
      FoldedShort(t.shape, s, SIGNATURE_END);
      assert [s] + [SIGNATURE_END] == [s, SIGNATURE_END];
    case LeafTree(bytes) =>
      FoldedShort(t.shape, s, LeafWord(|bytes|));
      assert [s] + [LeafWord(|bytes|)] == [s, LeafWord(|bytes|)];
    case _ =>
      FoldedShort(t.shape, s, 0);
      BodyFold(tree.body, level + 1, PassStart(t, tree.selector));
      MixedThen(t, PassStart(t, tree.selector), RootTrace(tree, level, t), [s], BodyWords(t.scalar, tree.body));
  }

  lemma {:induction false} ChildFold(tree: Tree, level: nat, t: Trace)
    requires t.active
    ensures Mixed(t, ChildTrace(tree, level, t), Words(t.scalar, tree))
    decreases tree, 1
  {
    hide RootTrace, Words, Folded;
    RootFold(tree, level, Deepen(t, level));
  }

  lemma {:induction false} BodyFold(body: BodyTree, level: nat, t: Trace)
    requires t.active && !body.UnitTree? && !body.LeafTree?
    ensures Mixed(t, BodyTrace(body, level, t), BodyWords(t.scalar, body))
    decreases body, 0
  {
    hide ChildTrace, Words, Folded;
    match body
    case ArrayTree(items) => ItemsFold(items, level, t);
    case ObjectTree(parts) => PartsFold(parts, level, t);
    case DemandTree(left, tail) =>
      var u := ChildTrace(left, level, t);
      ChildFold(left, level, t);
      ChildFold(tail.right, level, u);
      MixedThen(t, u, BodyTrace(body, level, t), Words(t.scalar, left), Words(t.scalar, tail.right));
  }

  lemma {:induction false} ItemsFold(items: seq<Tree>, level: nat, t: Trace)
    requires t.active
    ensures Mixed(t, ItemsTrace(items, level, t), ItemsWords(t.scalar, items))
    decreases items, 0
  {
    hide ChildTrace, Words, Folded;
    FoldedShort(t.shape, 0, 0);
    if items != [] {
      var u := ChildTrace(items[0], level, t);
      ChildFold(items[0], level, t);
      ItemsFold(items[1..], level, u);
      MixedThen(t, u, ItemsTrace(items, level, t), Words(t.scalar, items[0]), ItemsWords(t.scalar, items[1..]));
    }
  }

  lemma {:induction false} PartFold(part: Part, level: nat, t: Trace)
    requires t.active
    ensures Mixed(t, PartTrace(part, level, t), PartWords(t.scalar, part))
    decreases part, 0
  {
    hide RootTrace, Words, Folded;
    FoldedShort(t.shape, 0, 0);
    if part.ChildPart? {
      ChildFold(part.child, level, t);
    }
  }

  lemma {:induction false} PartsFold(parts: seq<Part>, level: nat, t: Trace)
    requires t.active
    ensures Mixed(t, PartsTrace(parts, level, t), PartsWords(t.scalar, parts))
    decreases parts, 0
  {
    hide PartTrace, PartWords, Folded;
    FoldedShort(t.shape, 0, 0);
    if parts != [] {
      var u := PartTrace(parts[0], level, t);
      PartFold(parts[0], level, t);
      PartsFold(parts[1..], level, u);
      MixedThen(t, u, PartsTrace(parts, level, t), PartWords(t.scalar, parts[0]), PartsWords(t.scalar, parts[1..]));
    }
  }

  /** The signature of a recursive root folds its words, in reading order, into the seed; a
      unit or a leaf has none. */
  lemma SignatureIsFold(scalar: Scalar, tree: Tree, consumed: nat)
    ensures MeasureOf(scalar, tree, consumed).shape ==
              if tree.body.UnitTree? || tree.body.LeafTree? then 0 else Folded(SIGNATURE_SEED, Words(scalar, tree))
  {
    hide Mix, SelectorWord, BodyTrace, BodyWords, Folded;
    if !tree.body.UnitTree? && !tree.body.LeafTree? {
      var s := SelectorWord(scalar, tree.selector);
      var seeded := Trace(scalar, true, SIGNATURE_SEED, 0);
      FoldedShort(SIGNATURE_SEED, s, 0);
      BodyFold(tree.body, 1, PassStart(Fresh(scalar), tree.selector));
      MixedThen(seeded, PassStart(Fresh(scalar), tree.selector), RootTrace(tree, 0, Fresh(scalar)), [s], BodyWords(scalar, tree.body));
    }
  }

  // ----- what a signature forgets -----

  lemma RotatedBit(x: nat, k: nat, i: nat)
    requires x < Pow2(64) && k <= 64 && i < 64
    ensures Bit(RotateLeft(x, k), i) <==> Bit(x, if i >= k then i - k else i + 64 - k)
  {
    OrBit(Low(Shl(x, k), 64), Shr(x, 64 - k), i);
    LowBit(Shl(x, k), 64, i);
    ShlBit(x, k, i);
    ShrBit(x, 64 - k, i);
    if i >= k {
      FitsBits(x, 64, i + 64 - k);
    }
  }

  lemma RotatedHigh(x: nat, k: nat, i: nat)
    requires x < Pow2(64) && k <= 64 && i >= 64
    ensures !Bit(RotateLeft(x, k), i)
  {
    OrBit(Low(Shl(x, k), 64), Shr(x, 64 - k), i);
    LowBit(Shl(x, k), 64, i);
    ShrBit(x, 64 - k, i);
    FitsBits(x, 64, i + 64 - k);
  }

  /** A width below 2^28 leaves the ends of its word alone. */
  lemma LeafWordBit(width: nat, i: nat)
    requires width < 0x1000_0000 && i < 64 && (i < 23 || i >= 51)
    ensures Bit(LeafWord(width), i) <==> Bit(SIGNATURE_END, i)
  {
    hide Bit, Xor, RotateLeft, Pow2;
    WordSizes();
    XorBit(SIGNATURE_END, RotateLeft(width, 23), i);
    RotatedBit(width, 23, i);
    FitsBits(width, 28, if i >= 23 then i - 23 else i + 41);
  }

  lemma WordSizes()
    ensures Pow2(16) == 0x1_0000 && Pow2(28) == 0x1000_0000 && Pow2(64) == WORD_LIMIT
  {
    assert Pow2(8) == 256;
    assert Pow2(16) == 256 * Pow2(8);
    assert Pow2(24) == 256 * Pow2(16);
    assert Pow2(28) == 16 * Pow2(24);
    assert Pow2(32) == 16 * Pow2(28);
    assert Pow2(40) == 256 * Pow2(32);
    assert Pow2(48) == 256 * Pow2(40);
    assert Pow2(56) == 256 * Pow2(48);
    assert Pow2(64) == 256 * Pow2(56);
  }

  lemma WordFits(width: nat)
    requires width < 0x1000_0000
    ensures LeafWord(width) < Pow2(64)
  {
    hide Bit, Xor, RotateLeft, Pow2;
    WordSizes();
    forall i: nat | i >= 64 ensures !Bit(LeafWord(width), i) {
      XorBit(SIGNATURE_END, RotateLeft(width, 23), i);
      FitsBits(SIGNATURE_END, 64, i);
      RotatedHigh(width, 23, i);
    }
    BitsFit(LeafWord(width), 64);
  }

  lemma MixedBit(shape: nat, word: nat, i: nat)
    requires shape < Pow2(64) && word < Pow2(64) && i < 16
    ensures var k := if i >= 13 then i - 13 else i + 51;
            Bit(RotateLeft(Xor(shape, word), 13), i) <==> Bit(shape, k) != Bit(word, k)
  {
    var k := if i >= 13 then i - 13 else i + 51;
    forall j: nat | j >= 64 ensures !Bit(Xor(shape, word), j) {
      XorBit(shape, word, j);
      FitsBits(shape, 64, j);
      FitsBits(word, 64, j);
    }
    BitsFit(Xor(shape, word), 64);
    RotatedBit(Xor(shape, word), 13, i);
    XorBit(shape, word, k);
  }

  /** The sixteen bits a geometry keeps do not depend on the width of the last leaf, as
      long as that is below 2^28. */
  lemma LastLeafForgotten(shape: nat, a: nat, b: nat)
    requires shape < WORD_LIMIT && a < 0x1000_0000 && b < 0x1000_0000
    ensures Mix(shape, LeafWord(a)) % 0x1_0000 == Mix(shape, LeafWord(b)) % 0x1_0000
  {
    hide Bit, Xor, RotateLeft, LeafWord, Low, Pow2;
    WordSizes();
    WordFits(a);
    WordFits(b);
    var x, y := RotateLeft(Xor(shape, LeafWord(a)), 13), RotateLeft(Xor(shape, LeafWord(b)), 13);
    forall i: nat ensures Bit(Low(x, 16), i) == Bit(Low(y, 16), i) {
      LowBit(x, 16, i);
      LowBit(y, 16, i);
      if i < 16 {
        var k := if i >= 13 then i - 13 else i + 51;
        MixedBit(shape, LeafWord(a), i);
        MixedBit(shape, LeafWord(b), i);
        LeafWordBit(a, k);
        LeafWordBit(b, k);
      }
    }
    Extensional(Low(x, 16), Low(y, 16));
    LowIsMod(x, 16);
    LowIsMod(y, 16);
    LowOfSum(x, SIGNATURE_STEP);
    LowOfSum(y, SIGNATURE_STEP);
  }

  lemma LowOfSum(x: nat, step: nat)
    ensures (x + step) % WORD_LIMIT % 0x1_0000 == (x % 0x1_0000 + step % 0x1_0000) % 0x1_0000
  {
  }

  /** Two leaf children of one selector, below 2^28 bytes each, end a signature alike. */
  lemma LeavesAlike(t: Trace, selector: nat, a: nat, b: nat)
    requires a < 0x1000_0000 && b < 0x1000_0000
    ensures PassLeaf(t, selector, a).shape % 0x1_0000 == PassLeaf(t, selector, b).shape % 0x1_0000
  {
    LastLeafForgotten(Mix(t.shape, SelectorWord(t.scalar, selector)), a, b);
  }

  // ----- what a signature tells apart -----

  lemma RotatedApart(x: nat, y: nat, k: nat)
    requires x < Pow2(64) && y < Pow2(64) && k <= 64 && RotateLeft(x, k) == RotateLeft(y, k)
    ensures x == y
  {
    hide RotateLeft, Pow2, Bit;
    forall i: nat ensures Bit(x, i) == Bit(y, i) {
      if i < 64 {
        var j := if i + k < 64 then i + k else i + k - 64;
        RotatedBit(x, k, j);
        RotatedBit(y, k, j);
      } else {
        FitsBits(x, 64, i);
        FitsBits(y, 64, i);
      }
    }
    Extensional(x, y);
  }

  lemma RotatedFits(x: nat, k: nat)
    requires x < Pow2(64) && k <= 64
    ensures RotateLeft(x, k) < Pow2(64)
  {
    hide RotateLeft, Bit;
    forall i: nat | i >= 64 ensures !Bit(RotateLeft(x, k), i) {
      RotatedHigh(x, k, i);
    }
    BitsFit(RotateLeft(x, k), 64);
  }

  lemma XorApart(x: nat, y: nat, mask: nat)
    ensures Xor(x, mask) == Xor(y, mask) ==> x == y
    ensures Xor(mask, x) == Xor(mask, y) ==> x == y
  {
    hide Bit, Xor;
    if Xor(x, mask) == Xor(y, mask) || Xor(mask, x) == Xor(mask, y) {
      forall i: nat ensures Bit(x, i) == Bit(y, i) {
        XorBit(x, mask, i);
        XorBit(y, mask, i);
        XorBit(mask, x, i);
        XorBit(mask, y, i);
      }
      Extensional(x, y);
    }
  }

  lemma XorWord(x: nat, y: nat)
    requires x < Pow2(64) && y < Pow2(64)
    ensures Xor(x, y) < Pow2(64)
  {
    hide Bit, Xor;
    forall i: nat | i >= 64 ensures !Bit(Xor(x, y), i) {
      XorBit(x, y, i);
      FitsBits(x, 64, i);
      FitsBits(y, 64, i);
    }
    BitsFit(Xor(x, y), 64);
  }

  lemma StepApart(x: nat, y: nat)
    requires x < WORD_LIMIT && y < WORD_LIMIT && (x + SIGNATURE_STEP) % WORD_LIMIT == (y + SIGNATURE_STEP) % WORD_LIMIT
    ensures x == y
  {
  }

  /** One mixing step loses nothing: states that differ, or words that differ, are mixed
      into different signatures. */
  lemma MixApart(x: nat, y: nat, other: nat)
    requires x < WORD_LIMIT && y < WORD_LIMIT && other < WORD_LIMIT && x != y
    ensures Mix(x, other) != Mix(y, other) && Mix(other, x) != Mix(other, y)
  {
    hide Bit, Xor, RotateLeft, Pow2;
    WordSizes();
    XorApart(x, y, other);
    forall a, b | a in {Xor(x, other), Xor(other, x)} && b in {Xor(y, other), Xor(other, y)} && a != b
      ensures (RotateLeft(a, 13) + SIGNATURE_STEP) % WORD_LIMIT != (RotateLeft(b, 13) + SIGNATURE_STEP) % WORD_LIMIT
    {
      XorWord(x, other);
      XorWord(other, x);
      XorWord(y, other);
      XorWord(other, y);
      TurnedApart(a, b);
    }
  }

  lemma TurnedApart(a: nat, b: nat)
    requires a < Pow2(64) && b < Pow2(64) && a != b
    ensures (RotateLeft(a, 13) + SIGNATURE_STEP) % WORD_LIMIT != (RotateLeft(b, 13) + SIGNATURE_STEP) % WORD_LIMIT
  {
    hide RotateLeft, Pow2;
    WordSizes();
    RotatedFits(a, 13);
    RotatedFits(b, 13);
    if (RotateLeft(a, 13) + SIGNATURE_STEP) % WORD_LIMIT == (RotateLeft(b, 13) + SIGNATURE_STEP) % WORD_LIMIT {
      StepApart(RotateLeft(a, 13), RotateLeft(b, 13));
      RotatedApart(a, b, 13);
    }
  }

  lemma LeafWordsApart(a: nat, b: nat)
    requires a < WORD_LIMIT && b < WORD_LIMIT && a != b
    ensures LeafWord(a) != LeafWord(b)
    ensures LeafWord(a) < WORD_LIMIT
  {
    hide Bit, Xor, RotateLeft, Pow2;
    WordSizes();
    RotatedFits(a, 23);
    XorWord(SIGNATURE_END, RotateLeft(a, 23));
    XorApart(RotateLeft(a, 23), RotateLeft(b, 23), SIGNATURE_END);
    if LeafWord(a) == LeafWord(b) {
      RotatedApart(a, b, 23);
    }
  }

  /** Once a signature is kept, every root passed is told from one with another selector,
      and a leaf from one of another width; a unit is an empty leaf. */
  lemma PassesApart(t: Trace, a: nat, b: nat, m: nat, n: nat)
    requires t.active && t.shape < WORD_LIMIT && m < WORD_LIMIT && n < WORD_LIMIT
    ensures SelectorWord(t.scalar, a) != SelectorWord(t.scalar, b) ==>
              && PassUnit(t, a).shape != PassUnit(t, b).shape && PassStart(t, a).shape != PassStart(t, b).shape
              && PassLeaf(t, a, m).shape != PassLeaf(t, b, m).shape
    ensures m != n ==> PassLeaf(t, a, m).shape != PassLeaf(t, a, n).shape
    ensures PassUnit(t, a) == PassLeaf(t, a, 0)
  {
    hide Mix, LeafWord, SelectorWord;
    var x, y := SelectorWord(t.scalar, a), SelectorWord(t.scalar, b);
    SelectorIsWord(t.scalar, a);
    SelectorIsWord(t.scalar, b);
    LeafWordsApart(m, if m == 0 then 1 else 0);
    EmptyLeaf();
    if x != y {
      MixApart(x, y, t.shape);
      MixApart(Mix(t.shape, x), Mix(t.shape, y), SIGNATURE_END);
      MixApart(Mix(t.shape, x), Mix(t.shape, y), LeafWord(m));
    }
    if m != n {
      LeafWordsApart(m, n);
      LeafWordsApart(n, m);
      MixApart(LeafWord(m), LeafWord(n), Mix(t.shape, x));
    }
  }

  lemma SelectorIsWord(scalar: Scalar, selector: nat)
    ensures SelectorWord(scalar, selector) < WORD_LIMIT
  {
  }

  /** The word of a stored selector is its value, wrapped at 64 bits. */
  lemma SelectorIsScalar(scalar: Scalar, bytes: seq<byte>)
    requires |bytes| == scalar.width
    ensures SelectorWord(scalar, DecodeUnsigned(scalar.endian, bytes)) == DecodeScalar(scalar, bytes) % WORD_LIMIT
  {
  }

  lemma EmptyLeaf()
    ensures LeafWord(0) == SIGNATURE_END
  {
    hide Xor;
    forall i: nat ensures Bit(RotateLeft(0, 23), i) == Bit(0, i) {
      ZeroBit(i);
      WordSizes();
      if i < 64 {
        RotatedBit(0, 23, i);
        ZeroBit(if i >= 23 then i - 23 else i + 41);
      } else {
        RotatedHigh(0, 23, i);
      }
    }
    Extensional(RotateLeft(0, 23), 0);
    XorZero(SIGNATURE_END);
  }
}
