/** The palette of observed widths, and the ranked summary filled while walking: one
    6-bit class an item and the start of every block of 32 items. */
module GeometryRanked {
  import opened Base
  import opened Bits
  import opened Widths
  import opened GeometryStorage
  import opened GeometryLookup
  import opened GeometryRuns

  /** Distinct widths in order of appearance, and the class found last. */
  datatype Palette = Palette(widths: seq<nat>, failed: bool, last: Option<(nat, nat)>)

  predicate ValidPalette(p: Palette) {
    && |p.widths| <= PALETTE_CAPACITY
    && (forall c :: 0 <= c < |p.widths| ==> p.widths[c] < U16_LIMIT)
    && (p.last.Some? ==> p.last.value.1 < |p.widths| && p.widths[p.last.value.1] == p.last.value.0)
  }

  function Position(widths: seq<nat>, width: nat): (c: Option<nat>)
    ensures c.Some? ==> c.value < |widths| && widths[c.value] == width
    ensures c.None? ==> width !in widths
  {
    if widths == [] then None
    else if widths[0] == width then Some(0)
    else
      match Position(widths[1..], width)
      case None => None
      case Some(c) => Some(c + 1)
  }

  /** The class of one width, unless the palette failed. */
  function Classify(p: Palette, width: nat): (r: (Palette, Option<nat>))
    requires ValidPalette(p)
    ensures ValidPalette(r.0) && p.widths <= r.0.widths
    ensures r.1.Some? ==> r.1.value < |r.0.widths| && r.0.widths[r.1.value] == width && |r.0.widths| <= |p.widths| + 1
    ensures r.1.Some? ==> (|r.0.widths| > |p.widths| ==> r.1.value == |p.widths|)
    ensures r.1.None? <==> r.0.failed
  {
    if p.failed then (p, None)
    else if width >= U16_LIMIT then (p.(failed := true), None)
    else if p.last.Some? && p.last.value.0 == width then (p, Some(p.last.value.1))
    else
      match Position(p.widths, width)
      case Some(c) => (p.(last := Some((width, c))), Some(c))
      case None =>
        if |p.widths| == PALETTE_CAPACITY then (p.(failed := true), None)
        else (Palette(p.widths + [width], false, Some((width, |p.widths|))), Some(|p.widths|))
  }

  // ----- the ranked summary -----

  predicate PaletteStored(s: Storage, palette: seq<nat>, c: nat)
    requires c < |palette| <= PALETTE_CAPACITY
  {
    GetU16(s, RANKED_PALETTE + c * 2) == palette[c]
  }

  predicate CodeStored(s: Storage, palette: seq<nat>, w: seq<nat>, i: nat)
    requires i < |w| && i < RANKED_CAPACITY
  {
    GetCode(s, RANKED_CODES, i) < |palette| && palette[GetCode(s, RANKED_CODES, i)] == w[i]
  }

  predicate BlockStored(s: Storage, starts: seq<nat>, block: nat, b: nat)
    requires b * block < |starts| && b < RANKED_CAPACITY / RANKED_BLOCK
  {
    BlockStart(s, b) == starts[b * block]
  }

  /** A block size whose starts fit the prefix slots. */
  predicate BlockSize(block: nat) {
    block == RANKED_BLOCK || block == PACKED_RUN_BLOCK
  }

  /** A palette, one class for each of the first `n` elements of widths `w`, and the start
      of every block of them. Elements are items or runs. */
  ghost predicate RankedKept(s: Storage, palette: seq<nat>, w: seq<nat>, starts: seq<nat>, block: nat, n: nat) {
    && |palette| <= PALETTE_CAPACITY && n <= |w| <= RANKED_CAPACITY && |starts| == |w| && BlockSize(block)
    && (forall c: nat :: c < |palette| ==> PaletteStored(s, palette, c))
    && (forall i: nat :: i < n ==> CodeStored(s, palette, w, i))
    && (forall b: nat :: b * block < n ==> BlockStored(s, starts, block, b))
  }

  /** Starts of the items. */
  function Starts(w: seq<nat>): (starts: seq<nat>)
    ensures |starts| == |w| && forall i :: 0 <= i < |w| ==> starts[i] == Start(w, i)
  {
    seq(|w|, i requires 0 <= i < |w| => Start(w, i))
  }

  /** A complete ranked summary describes the widths. */
  lemma RankedDescribes(s: Storage, palette: seq<nat>, w: seq<nat>)
    requires RankedKept(s, palette, w, Starts(w), RANKED_BLOCK, |w|)
    ensures DescribesRanked(s, w)
  {
    forall i: nat | i < |w| ensures CodeDescribes(s, w, i, i) {
      ElementCoded(s, palette, w, Starts(w), RANKED_BLOCK, |w|, i);
    }
    forall b: nat | b * RANKED_BLOCK < |w| ensures BlockDescribes(s, w, b, b * RANKED_BLOCK) {
      assert BlockStored(s, Starts(w), RANKED_BLOCK, b);
    }
  }

  lemma ElementCoded(s: Storage, palette: seq<nat>, w: seq<nat>, starts: seq<nat>, block: nat, n: nat, i: nat)
    requires RankedKept(s, palette, w, starts, block, n) && i < n
    ensures w[i] == CodeWidth(s, RANKED_CODES, i)
  {
    assert CodeStored(s, palette, w, i);
    assert PaletteStored(s, palette, GetCode(s, RANKED_CODES, i));
  }

  /** Slots outside a change keep their values. */
  lemma U16Kept(before: Storage, after: Storage, start: nat, end: nat, offset: nat)
    requires Untouched(before, after, start, end) && offset + 2 <= STORAGE_BYTES
    requires offset + 2 <= start || end <= offset
    ensures GetU16(after, offset) == GetU16(before, offset)
  {
  }

  lemma U32Kept(before: Storage, after: Storage, start: nat, end: nat, offset: nat)
    requires Untouched(before, after, start, end) && offset + 4 <= STORAGE_BYTES
    requires offset + 4 <= start || end <= offset
    ensures GetU32(after, offset) == GetU32(before, offset)
  {
  }

  lemma CodeKept(before: Storage, after: Storage, start: nat, end: nat, index: nat)
    requires Untouched(before, after, start, end) && index < RANKED_CAPACITY
    requires end <= RANKED_CODES || RANKED_PREFIXES <= start
    ensures GetCode(after, RANKED_CODES, index) == GetCode(before, RANKED_CODES, index)
  {
    hide GetCode;
    forall k: nat ensures Bit(GetCode(after, RANKED_CODES, index), k) == Bit(GetCode(before, RANKED_CODES, index), k) {
      CodeBits(before, RANKED_CODES, index, k);
      CodeBits(after, RANKED_CODES, index, k);
    }
    Extensional(GetCode(after, RANKED_CODES, index), GetCode(before, RANKED_CODES, index));
  }

  /** Putting a palette entry again, or the next one, keeps the summary. */
  lemma PaletteKept(before: Storage, after: Storage, palette: seq<nat>, more: seq<nat>, class_: nat,
                    w: seq<nat>, starts: seq<nat>, block: nat, n: nat)
    requires RankedKept(before, palette, w, starts, block, n) && class_ < |more| <= PALETTE_CAPACITY && palette <= more
    requires Untouched(before, after, RANKED_PALETTE + class_ * 2, RANKED_PALETTE + class_ * 2 + 2)
    requires GetU16(after, RANKED_PALETTE + class_ * 2) == more[class_]
    requires |more| <= |palette| + 1 && (|more| > |palette| ==> class_ == |palette|)
    ensures RankedKept(after, more, w, starts, block, n)
  {
    hide GetU16, GetCode, GetU32;
    var start := RANKED_PALETTE + class_ * 2;
    forall c: nat | c < |more| ensures PaletteStored(after, more, c) {
      if c != class_ {
        assert PaletteStored(before, palette, c);
        U16Kept(before, after, start, start + 2, RANKED_PALETTE + c * 2);
      }
    }
    forall i: nat | i < n ensures CodeStored(after, more, w, i) {
      assert CodeStored(before, palette, w, i);
      CodeKept(before, after, start, start + 2, i);
    }
    forall b: nat | b * block < n ensures BlockStored(after, starts, block, b) {
      assert BlockStored(before, starts, block, b);
      U32Kept(before, after, start, start + 2, RANKED_PREFIXES + b * 4);
    }
  }

  /** The codes, one more item classified. */
  ghost predicate CodesKept(before: Storage, after: Storage, index: nat, code: nat)
    requires index < RANKED_CAPACITY
  {
    && GetCode(after, RANKED_CODES, index) == code
    && (forall i: nat :: i < RANKED_CAPACITY && i != index ==> SameCode(before, after, i))
    && Untouched(before, after, RANKED_CODES, RANKED_PREFIXES)
  }

  predicate SameCode(before: Storage, after: Storage, i: nat)
    requires i < RANKED_CAPACITY
  {
    GetCode(after, RANKED_CODES, i) == GetCode(before, RANKED_CODES, i)
  }

  /** Setting the class of item `n` extends the codes, but not yet the blocks. */
  lemma CodeExtends(before: Storage, after: Storage, palette: seq<nat>, w: seq<nat>, starts: seq<nat>, block: nat, n: nat, code: nat)
    requires RankedKept(before, palette, w, starts, block, n) && n < |w| && CodesKept(before, after, n, code)
    requires code < |palette| && palette[code] == w[n]
    ensures forall c: nat :: c < |palette| ==> PaletteStored(after, palette, c)
    ensures forall i: nat :: i < n + 1 ==> CodeStored(after, palette, w, i)
    ensures forall b: nat :: b * block < n ==> BlockStored(after, starts, block, b)
  {
    hide GetU16, GetCode, GetU32;
    forall c: nat | c < |palette| ensures PaletteStored(after, palette, c) {
      assert PaletteStored(before, palette, c);
      U16Kept(before, after, RANKED_CODES, RANKED_PREFIXES, RANKED_PALETTE + c * 2);
    }
    forall i: nat | i < n + 1 ensures CodeStored(after, palette, w, i) {
      if i < n {
        assert CodeStored(before, palette, w, i) && SameCode(before, after, i);
      }
    }
    forall b: nat | b * block < n ensures BlockStored(after, starts, block, b) {
      assert BlockStored(before, starts, block, b);
      U32Kept(before, after, RANKED_CODES, RANKED_PREFIXES, RANKED_PREFIXES + b * 4);
    }
  }

  /** Storing the start of a new block completes the summary of `n + 1` items. */
  lemma BlockExtends(before: Storage, after: Storage, palette: seq<nat>, w: seq<nat>, starts: seq<nat>, block: nat, n: nat)
    requires |palette| <= PALETTE_CAPACITY && n < |w| <= RANKED_CAPACITY && |starts| == |w| && BlockSize(block) && n % block == 0
    requires forall c: nat :: c < |palette| ==> PaletteStored(before, palette, c)
    requires forall i: nat :: i < n + 1 ==> CodeStored(before, palette, w, i)
    requires forall b: nat :: b * block < n ==> BlockStored(before, starts, block, b)
    requires var at := RANKED_PREFIXES + n / block * 4;
             at + 4 <= STORAGE_BYTES && Untouched(before, after, at, at + 4) && GetU32(after, at) == starts[n]
    ensures RankedKept(after, palette, w, starts, block, n + 1)
  {
    hide GetU16, GetCode, GetU32, Start;
    var at := RANKED_PREFIXES + n / block * 4;
    forall c: nat | c < |palette| ensures PaletteStored(after, palette, c) {
      assert PaletteStored(before, palette, c);
      U16Kept(before, after, at, at + 4, RANKED_PALETTE + c * 2);
    }
    forall i: nat | i < n + 1 ensures CodeStored(after, palette, w, i) {
      assert CodeStored(before, palette, w, i);
      CodeKept(before, after, at, at + 4, i);
    }
    forall b: nat | b * block < n + 1 ensures BlockStored(after, starts, block, b) {
      if b * block < n {
        assert BlockStored(before, starts, block, b);
        U32Kept(before, after, at, at + 4, RANKED_PREFIXES + b * 4);
      }
    }
  }

  /** Records the class of element `index` and, at a block boundary, its start; fails
      when that start needs more than 32 bits. */
  method PushCode(storage: array<byte>, class_: nat, index: nat, start: nat, block: nat,
                  ghost palette: seq<nat>, ghost w: seq<nat>, ghost starts: seq<nat>)
    returns (kept: bool)
    requires storage.Length == STORAGE_BYTES && index < |w| <= RANKED_CAPACITY
    requires class_ < |palette| <= PALETTE_CAPACITY && palette[class_] == w[index] && BlockSize(block)
    requires |starts| == |w| && start == starts[index]
    modifies storage
    ensures kept && old(RankedKept(storage[..], palette, w, starts, block, index)) ==>
              RankedKept(storage[..], palette, w, starts, block, index + 1)
    ensures kept <==> (index % block == 0 ==> start <= U32_MAX)
  {
    hide GetU16, GetCode, GetU32, RankedKept, Untouched;
    ghost var was := RankedKept(storage[..], palette, w, starts, block, index);
    CodesStayInRegion(index);
    ghost var second: Storage := storage[..];
    SetCode(storage, RANKED_CODES, index, class_);
    ghost var third: Storage := storage[..];
    SetCodeKeeps(second, third, index, class_);
    if was {
      CodeExtends(second, third, palette, w, starts, block, index, class_);
    }
    kept := true;
    if index % block == 0 {
      if start > U32_MAX {
        return false;
      }
      PutU32(storage, RANKED_PREFIXES + index / block * 4, start);
      if was {
        BlockExtends(third, storage[..], palette, w, starts, block, index);
      }
    } else if was {
      NoBlock(third, palette, w, starts, block, index);
    }
  }

  /** Records item `index` of the ranked summary: its palette entry, class and block. */
  method PushRanked(storage: array<byte>, palette: seq<nat>, more: seq<nat>, class_: nat, width: nat, index: nat, start: nat,
                    ghost w: seq<nat>)
    returns (kept: bool)
    requires storage.Length == STORAGE_BYTES && index < |w| <= RANKED_CAPACITY && start == Start(w, index)
    requires class_ < |more| <= PALETTE_CAPACITY && palette <= more && more[class_] == w[index] == width < U16_LIMIT
    requires |more| <= |palette| + 1 && (|more| > |palette| ==> class_ == |palette|)
    modifies storage
    ensures kept && old(RankedKept(storage[..], palette, w, Starts(w), RANKED_BLOCK, index)) ==>
              RankedKept(storage[..], more, w, Starts(w), RANKED_BLOCK, index + 1)
    ensures start <= U32_MAX ==> kept
  {
    hide GetU16, GetCode, GetU32, RankedKept, Start, Untouched;
    ghost var first: Storage := storage[..];
    PutU16(storage, RANKED_PALETTE + class_ * 2, width);
    if RankedKept(first, palette, w, Starts(w), RANKED_BLOCK, index) {
      PaletteKept(first, storage[..], palette, more, class_, w, Starts(w), RANKED_BLOCK, index);
    }
    kept := PushCode(storage, class_, index, start, RANKED_BLOCK, more, w, Starts(w));
  }

  lemma NoBlock(s: Storage, palette: seq<nat>, w: seq<nat>, starts: seq<nat>, block: nat, n: nat)
    requires |palette| <= PALETTE_CAPACITY && n < |w| <= RANKED_CAPACITY && |starts| == |w| && BlockSize(block) && n % block != 0
    requires forall c: nat :: c < |palette| ==> PaletteStored(s, palette, c)
    requires forall i: nat :: i < n + 1 ==> CodeStored(s, palette, w, i)
    requires forall b: nat :: b * block < n ==> BlockStored(s, starts, block, b)
    ensures RankedKept(s, palette, w, starts, block, n + 1)
  {
    forall b: nat | b * block < n + 1 ensures BlockStored(s, starts, block, b) {
      assert b * block != n;
    }
  }

  lemma SetCodeKeeps(before: Storage, after: Storage, index: nat, code: nat)
    requires index < RANKED_CAPACITY && CodeFits(RANKED_CODES, index) && GetCode(after, RANKED_CODES, index) == code
    requires forall other :: other != index && CodeFits(RANKED_CODES, other) ==>
               GetCode(after, RANKED_CODES, other) == GetCode(before, RANKED_CODES, other)
    requires Untouched(before, after, RANKED_CODES + index * 6 / 8, RANKED_CODES + (index * 6 + 5) / 8 + 1)
    ensures CodesKept(before, after, index, code)
  {
    hide GetCode;
    CodesStayInRegion(index);
    forall i: nat | i < RANKED_CAPACITY && i != index ensures SameCode(before, after, i) {
      CodesStayInRegion(i);
    }
  }
}
