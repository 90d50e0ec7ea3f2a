/** The repeating-shape summary filled while walking: items are classed by a 16-bit
    structural signature, and the classes of the first 64 items give a period. Which
    measures a walk keeps such a summary for is stated on the measures alone. */
module GeometryShape {
  import opened Arith
  import opened Base
  import opened Widths
  import opened GeometryStorage
  import opened GeometryLookup
  import opened GeometryRuns
  import opened GeometryRanked
  import opened RecursiveSignature

  /** The kept part of the signature. */
  function Signature(m: Measure): nat {
    m.shape % U16_LIMIT
  }

  /** No two items of different widths share a signature. */
  ghost predicate SignaturesTell(m: seq<Measure>) {
    forall i, j :: 0 <= i < |m| && 0 <= j < |m| && Signature(m[i]) == Signature(m[j]) ==> m[i].consumed == m[j].consumed
  }

  // ----- what a walk asks of the measures -----

  /** An item whose width fits 32 bits; others are passed over. */
  predicate Narrow(x: Measure) {
    x.consumed <= U32_MAX
  }

  ghost predicate AllNarrow(m: seq<Measure>, n: nat)
    requires n <= |m|
  {
    forall i :: 0 <= i < n ==> Narrow(m[i])
  }

  /** One of the first `n` items has this signature. */
  ghost predicate Seen(m: seq<Measure>, n: nat, signature: nat)
    requires n <= |m|
  {
    exists j :: 0 <= j < n && Narrow(m[j]) && Signature(m[j]) == signature
  }

  /** Number of signatures among the first `n` items. */
  ghost function Signatures(m: seq<Measure>, n: nat): nat
    requires n <= |m|
  {
    if n == 0 then 0
    else Signatures(m, n - 1) + (if Narrow(m[n - 1]) && !Seen(m, n - 1, Signature(m[n - 1])) then 1 else 0)
  }

  /** Earlier items of the signature of item `i` have its width. */
  ghost predicate Agreeing(m: seq<Measure>, i: nat)
    requires i < |m|
  {
    forall j :: 0 <= j < i && Narrow(m[j]) && Signature(m[j]) == Signature(m[i]) ==> m[j].consumed == m[i].consumed
  }

  /** Item `i` has a class: an earlier one, or one that is still free. */
  ghost predicate Classable(m: seq<Measure>, i: nat)
    requires i < |m|
  {
    m[i].consumed < U16_LIMIT && (Seen(m, i, Signature(m[i])) || Signatures(m, i) < PALETTE_CAPACITY)
  }

  /** The first 64 signatures repeat with period `p`. */
  ghost predicate IsPeriod(m: seq<Measure>, p: nat)
    requires |m| >= PERIOD_CAPACITY && p > 0
  {
    forall k: nat :: k < PERIOD_CAPACITY ==> Signature(m[k]) == Signature(m[k % p])
  }

  ghost function LeastPeriod(m: seq<Measure>, p: nat): (q: nat)
    requires |m| >= PERIOD_CAPACITY && 1 <= p <= PERIOD_CAPACITY
    ensures p <= q <= PERIOD_CAPACITY && IsPeriod(m, q)
    ensures forall r :: p <= r < q ==> !IsPeriod(m, r)
    decreases PERIOD_CAPACITY - p
  {
    if p == PERIOD_CAPACITY || IsPeriod(m, p) then p else LeastPeriod(m, p + 1)
  }

  /** The shortest period of the first 64 signatures. */
  ghost function ShapePeriod(m: seq<Measure>): (p: nat)
    requires |m| >= PERIOD_CAPACITY
    ensures 1 <= p <= PERIOD_CAPACITY
  {
    LeastPeriod(m, 1)
  }

  /** Item `i` leaves the candidate alive. After the first 64 its width is not looked at. */
  ghost predicate Lives(m: seq<Measure>, i: nat)
    requires i < |m|
  {
    && m[i].consumed < U16_LIMIT
    && if i < PERIOD_CAPACITY then Agreeing(m, i) else Signature(m[i]) == Signature(m[i % ShapePeriod(m)])
  }

  /** There are no more signatures than items. */
  lemma {:induction false} SignaturesFew(m: seq<Measure>, n: nat)
    requires n <= |m|
    ensures Signatures(m, n) <= n
  {
    if n > 0 {
      SignaturesFew(m, n - 1);
    }
  }

  /** Among the first 64 items there always is a class left. */
  lemma RoomEarly(m: seq<Measure>, i: nat)
    requires i < |m| && i < PERIOD_CAPACITY
    ensures Classable(m, i) <==> m[i].consumed < U16_LIMIT
  {
    SignaturesFew(m, i);
  }

  /** And still when the 64th and all later ones were passed over. */
  lemma {:induction false} RoomLater(m: seq<Measure>, i: nat)
    requires PERIOD_CAPACITY <= i < |m| && forall j :: PERIOD_CAPACITY - 1 <= j < i ==> !Narrow(m[j])
    ensures Signatures(m, i) < PALETTE_CAPACITY
    ensures Classable(m, i) <==> m[i].consumed < U16_LIMIT
    decreases i
  {
    if i == PERIOD_CAPACITY {
      SignaturesFew(m, PERIOD_CAPACITY - 1);
    } else {
      RoomLater(m, i - 1);
    }
  }

  ghost predicate Alive(m: seq<Measure>, n: nat)
    requires n <= |m|
  {
    forall i: nat :: i < n && Narrow(m[i]) ==> Lives(m, i)
  }

  /** `prefixes` is the failure function over the first 64 classes. */
  datatype Shape = Shape(attempted: bool, candidate: bool, classes: nat, period: nat, prefixes: seq<nat>)

  function ClassHash(s: Storage, c: nat): nat
    requires c < PALETTE_CAPACITY
  {
    GetU16(s, SHAPE_HASHES + c * 2)
  }

  function ClassWidth(s: Storage, c: nat): nat
    requires c < PALETTE_CAPACITY
  {
    GetU16(s, SHAPE_WIDTHS + c * 2)
  }

  // ----- borders -----

  /** The first `p` of `n` codes are also the last `p`. */
  ghost predicate Border(codes: seq<byte>, n: nat, p: nat) {
    && n <= |codes| && (n > 0 ==> p < n) && (n == 0 ==> p == 0)
    && forall t: nat :: t < p ==> codes[t] == codes[n - p + t]
  }

  /** A border of a border is a border. */
  lemma BorderOfBorder(codes: seq<byte>, n: nat, p: nat, q: nat)
    requires Border(codes, n, p) && p > 0 && Border(codes, p, q)
    ensures Border(codes, n, q)
  {
    forall t: nat | t < q ensures codes[t] == codes[n - q + t] {
      assert codes[t] == codes[p - q + t];
    }
  }

  lemma BorderGrows(codes: seq<byte>, n: nat, p: nat)
    requires 0 < n < |codes| && Border(codes, n, p) && codes[p] == codes[n]
    ensures Border(codes, n + 1, p + 1)
  {
  }

  /** A border of all codes makes them periodic. */
  lemma {:induction false} BorderPeriod(codes: seq<byte>, n: nat, p: nat, period: nat, k: nat)
    requires Border(codes, n, p) && k < n && period == n - p
    ensures k % period < n && codes[k] == codes[k % period]
    decreases k
  {
    if k >= period {
      ModShift(k, period);
      BorderPeriod(codes, n, p, period, k - period);
      assert codes[k - period] == codes[period + (k - period)];
    } else {
      ModSmall(k, period);
    }
  }

  lemma ModSmall(k: nat, p: nat)
    requires k < p
    ensures k % p == k
  {
  }

  lemma ModShift(k: nat, p: nat)
    requires 0 < p <= k
    ensures (k - p) % p == k % p
  {
    DivMod(k, p);
    Distribute(k / p, -1, p);
    DivModUnique(k - p, p, k / p - 1, k % p);
  }

  /** The first `p` codes are the longest border of the first `n`. */
  ghost predicate LongestBorder(codes: seq<byte>, n: nat, p: nat) {
    Border(codes, n, p) && forall q: nat :: Border(codes, n, q) ==> q <= p
  }

  /** The shorter of two borders is a border of the longer one. */
  lemma ShorterBorder(codes: seq<byte>, n: nat, p: nat, q: nat)
    requires Border(codes, n, p) && Border(codes, n, q) && q < p
    ensures Border(codes, p, q)
  {
    forall t: nat | t < q ensures codes[t] == codes[p - q + t] {
      assert codes[p - q + t] == codes[n - p + (p - q + t)];
    }
  }

  /** A border of one more code extends a border. */
  lemma BorderShrinks(codes: seq<byte>, n: nat, q: nat)
    requires 0 < n < |codes| && Border(codes, n + 1, q + 1)
    ensures Border(codes, n, q) && codes[q] == codes[n]
  {
    forall t: nat | t < q ensures codes[t] == codes[n - q + t] {
    }
  }

  // ----- what the summary keeps -----

  ghost predicate ClassSeen(s: Storage, m: seq<Measure>, n: nat, c: nat)
    requires n <= |m| && c < PALETTE_CAPACITY
  {
    exists j :: 0 <= j < n && Narrow(m[j]) && Signature(m[j]) == ClassHash(s, c) && m[j].consumed == ClassWidth(s, c)
  }

  predicate Distinct(s: Storage, c: nat, d: nat)
    requires c < PALETTE_CAPACITY && d < PALETTE_CAPACITY
  {
    ClassHash(s, c) != ClassHash(s, d)
  }

  /** Class `c` is that of item `i`; only the first 64 items have its width for sure. */
  ghost predicate InClass(s: Storage, m: seq<Measure>, i: nat, c: nat)
    requires i < |m| && c < PALETTE_CAPACITY
  {
    ClassHash(s, c) == Signature(m[i]) && (i < PERIOD_CAPACITY ==> ClassWidth(s, c) == m[i].consumed)
  }

  ghost predicate Classed(s: Storage, classes: nat, m: seq<Measure>, i: nat)
    requires i < |m| && classes <= PALETTE_CAPACITY
  {
    exists c: nat :: c < classes && InClass(s, m, i, c)
  }

  /** One class for every signature seen. */
  ghost predicate TableKept(s: Storage, classes: nat, m: seq<Measure>, n: nat) {
    && n <= |m| && classes == Signatures(m, n) <= PALETTE_CAPACITY
    && (forall c: nat :: c < classes ==> ClassSeen(s, m, n, c))
    && (forall c: nat, d: nat :: c < d < classes ==> Distinct(s, c, d))
    && (forall i: nat :: i < n && Narrow(m[i]) ==> Classed(s, classes, m, i))
  }

  /** The failure function stays in range; there is a period once the 64th item has been
      classed, and none if that one was passed over. */
  ghost predicate PrefixesKept(st: Shape, m: seq<Measure>, n: nat) {
    && n <= |m| && |st.prefixes| == PERIOD_CAPACITY && st.period <= PERIOD_CAPACITY
    && (forall j: nat :: j < PERIOD_CAPACITY ==> st.prefixes[j] <= j)
    && (n < PERIOD_CAPACITY ==> st.period == 0)
    && (n >= PERIOD_CAPACITY ==> (st.period == 0 <==> !Narrow(m[PERIOD_CAPACITY - 1])))
  }

  function Codes(s: Storage): (codes: seq<byte>)
    ensures |codes| == PERIOD_CAPACITY
  {
    s[SHAPE_CODES..SHAPE_CODES + PERIOD_CAPACITY]
  }

  ghost predicate ItemCoded(s: Storage, classes: nat, m: seq<Measure>, i: nat)
    requires i < |m| && i < PERIOD_CAPACITY
  {
    Codes(s)[i] as nat < classes <= PALETTE_CAPACITY && InClass(s, m, i, Codes(s)[i] as nat)
  }

  /** The codes of the first 64 items, the longest border of each prefix of them, and the
      period that the last one gives. */
  ghost predicate CodingKept(s: Storage, st: Shape, m: seq<Measure>, n: nat) {
    && n <= |m| && |st.prefixes| == PERIOD_CAPACITY
    && (forall i: nat :: i < n && i < PERIOD_CAPACITY ==> ItemCoded(s, st.classes, m, i))
    && (forall j: nat :: j < n && j < PERIOD_CAPACITY ==> LongestBorder(Codes(s), j + 1, st.prefixes[j]))
    && (n >= PERIOD_CAPACITY ==> st.period == PERIOD_CAPACITY - st.prefixes[PERIOD_CAPACITY - 1])
  }

  /** The candidate after `n` items; items that were passed over leave codes behind that
      mean nothing. */
  ghost predicate ShapeKept(s: Storage, st: Shape, m: seq<Measure>, n: nat) {
    && TableKept(s, st.classes, m, n) && PrefixesKept(st, m, n)
    && (AllNarrow(m, n) ==> CodingKept(s, st, m, n))
  }

  // ----- the period -----

  /** Codes are equal exactly when signatures are. */
  lemma CodesTell(s: Storage, st: Shape, m: seq<Measure>, n: nat, i: nat, j: nat)
    requires TableKept(s, st.classes, m, n) && CodingKept(s, st, m, n) && i < n && j < n && i < PERIOD_CAPACITY && j < PERIOD_CAPACITY
    ensures Codes(s)[i] == Codes(s)[j] <==> Signature(m[i]) == Signature(m[j])
  {
    hide ClassHash, ClassWidth, Signature, Codes, LongestBorder;
    assert ItemCoded(s, st.classes, m, i) && ItemCoded(s, st.classes, m, j);
    var c, d := Codes(s)[i] as nat, Codes(s)[j] as nat;
    assert c < d ==> Distinct(s, c, d);
    assert d < c ==> Distinct(s, d, c);
  }

  /** The period kept is the shortest one of the first 64 signatures. */
  lemma PeriodIsShortest(s: Storage, st: Shape, m: seq<Measure>, n: nat)
    requires TableKept(s, st.classes, m, n) && CodingKept(s, st, m, n) && PERIOD_CAPACITY <= n <= |m|
    ensures st.period == ShapePeriod(m)
  {
    hide Codes, Signature, TableKept;
    var codes, prefix := Codes(s), st.prefixes[PERIOD_CAPACITY - 1];
    assert LongestBorder(codes, PERIOD_CAPACITY, prefix);
    forall k: nat | k < PERIOD_CAPACITY ensures Signature(m[k]) == Signature(m[k % st.period]) {
      BorderPeriod(codes, PERIOD_CAPACITY, prefix, st.period, k);
      CodesTell(s, st, m, n, k, k % st.period);
    }
    assert IsPeriod(m, st.period);
    var q := ShapePeriod(m);
    assert q <= st.period;
    forall t: nat | t < PERIOD_CAPACITY - q ensures codes[t] == codes[q + t] {
      ModShift(q + t, q);
      assert Signature(m[q + t]) == Signature(m[(q + t) % q]);
      CodesTell(s, st, m, n, t, q + t);
    }
    assert Border(codes, PERIOD_CAPACITY, PERIOD_CAPACITY - q);
  }

  /** A finished summary describes the widths exactly when every item has the width of
      the one its place in the period repeats. */
  lemma ShapeDescribesExactly(s: Storage, st: Shape, m: seq<Measure>)
    requires ShapeKept(s, st, m, |m|) && |m| >= PERIOD_CAPACITY && AllNarrow(m, |m|) && Alive(m, |m|)
    ensures ShapeTable(s, st.period) && st.period == ShapePeriod(m)
    ensures forall k: nat :: k < st.period ==> ShapeWidth(s, k) == m[k].consumed
    ensures (forall i: nat :: i < |m| ==> ShapeDescribes(s, st.period, WidthsOf(m), i)) <==>
              forall i: nat :: i < |m| ==> RepeatsWidth(m, i)
  {
    hide TableKept, Alive, Codes, ClassHash, ClassWidth, Signature, ShapePeriod;
    PeriodIsShortest(s, st, m, |m|);
    forall k: nat | k < PERIOD_CAPACITY ensures ShapeCode(s, k) < PALETTE_CAPACITY && ShapeWidth(s, k) == m[k].consumed {
      assert ItemCoded(s, st.classes, m, k);
      CodeWidthIs(s, k);
    }
    forall i: nat | i < |m| ensures ShapeDescribes(s, st.period, WidthsOf(m), i) <==> RepeatsWidth(m, i) {
      assert i % st.period < st.period;
    }
  }

  lemma CodeWidthIs(s: Storage, k: nat)
    requires k < PERIOD_CAPACITY && Codes(s)[k] as nat < PALETTE_CAPACITY
    ensures ShapeCode(s, k) == Codes(s)[k] as nat && ShapeWidth(s, k) == ClassWidth(s, ShapeCode(s, k))
  {
  }

  /** Item `i` has the width of the item its place in the period repeats. */
  ghost predicate RepeatsWidth(m: seq<Measure>, i: nat)
    requires |m| >= PERIOD_CAPACITY && i < |m|
  {
    m[i].consumed == m[i % ShapePeriod(m)].consumed
  }

  // ----- classing one item -----

  /** Hash and width of class `c` are as before. */
  predicate SameClass(before: Storage, after: Storage, c: nat)
    requires c < PALETTE_CAPACITY
  {
    ClassHash(after, c) == ClassHash(before, c) && ClassWidth(after, c) == ClassWidth(before, c)
  }

  predicate SameCodes(before: Storage, after: Storage) {
    forall i :: SHAPE_CODES <= i < STORAGE_BYTES ==> after[i] == before[i]
  }

  method FindClass(storage: array<byte>, classes: nat, hash: nat) returns (class_: Option<nat>)
    requires storage.Length == STORAGE_BYTES && classes <= PALETTE_CAPACITY
    ensures class_.Some? ==> class_.value < classes && ClassHash(storage[..], class_.value) == hash
    ensures class_.None? ==> forall c: nat :: c < classes ==> ClassHash(storage[..], c) != hash
  {
    hide GetU16;
    for candidate := 0 to classes
      invariant forall c: nat :: c < candidate ==> ClassHash(storage[..], c) != hash
    {
      if ClassHash(storage[..], candidate) == hash {
        return Some(candidate);
      }
    }
    class_ := None;
  }

  method AddClass(storage: array<byte>, class_: nat, hash: nat, width: nat)
    requires storage.Length == STORAGE_BYTES && class_ < PALETTE_CAPACITY && hash < U16_LIMIT && width < U16_LIMIT
    modifies storage
    ensures ClassHash(storage[..], class_) == hash && ClassWidth(storage[..], class_) == width
    ensures forall c: nat :: c < PALETTE_CAPACITY && c != class_ ==> SameClass(old(storage[..]), storage[..], c)
    ensures SameCodes(old(storage[..]), storage[..])
  {
    hide GetU16;
    ghost var before: Storage := storage[..];
    PutU16(storage, SHAPE_HASHES + class_ * 2, hash);
    ghost var middle: Storage := storage[..];
    PutU16(storage, SHAPE_WIDTHS + class_ * 2, width);
    ghost var after: Storage := storage[..];
    U16Kept(middle, after, SHAPE_WIDTHS + class_ * 2, SHAPE_WIDTHS + class_ * 2 + 2, SHAPE_HASHES + class_ * 2);
    forall c: nat | c < PALETTE_CAPACITY && c != class_ ensures SameClass(before, after, c) {
      U16Kept(before, middle, SHAPE_HASHES + class_ * 2, SHAPE_HASHES + class_ * 2 + 2, SHAPE_HASHES + c * 2);
      U16Kept(middle, after, SHAPE_WIDTHS + class_ * 2, SHAPE_WIDTHS + class_ * 2 + 2, SHAPE_HASHES + c * 2);
      U16Kept(before, middle, SHAPE_HASHES + class_ * 2, SHAPE_HASHES + class_ * 2 + 2, SHAPE_WIDTHS + c * 2);
      U16Kept(middle, after, SHAPE_WIDTHS + class_ * 2, SHAPE_WIDTHS + class_ * 2 + 2, SHAPE_WIDTHS + c * 2);
    }
  }

  // ----- what one item adds to the classes -----

  lemma SignaturesNext(m: seq<Measure>, n: nat)
    requires n < |m|
    ensures Signatures(m, n + 1) == Signatures(m, n) + (if Narrow(m[n]) && !Seen(m, n, Signature(m[n])) then 1 else 0)
  {
  }

  /** The classes seen are those of the signatures seen. */
  lemma TableTells(s: Storage, classes: nat, m: seq<Measure>, n: nat, c: Option<nat>)
    requires TableKept(s, classes, m, n) && n < |m| && Narrow(m[n])
    requires c.Some? ==> c.value < classes && ClassHash(s, c.value) == Signature(m[n])
    requires c.None? ==> forall d: nat :: d < classes ==> ClassHash(s, d) != Signature(m[n])
    ensures c.Some? <==> Seen(m, n, Signature(m[n]))
    ensures c.Some? && n < PERIOD_CAPACITY ==> (ClassWidth(s, c.value) == m[n].consumed <==> Agreeing(m, n))
    ensures Agreeing(m, n) || c.Some?
  {
    hide ClassHash, ClassWidth, Signature, Signatures;
    if c.Some? {
      assert ClassSeen(s, m, n, c.value);
      if n < PERIOD_CAPACITY {
        forall j: nat | j < n && Narrow(m[j]) && Signature(m[j]) == Signature(m[n]) ensures m[j].consumed == ClassWidth(s, c.value) {
          assert Classed(s, classes, m, j);
          var d: nat :| d < classes && InClass(s, m, j, d);
          assert c.value < d ==> Distinct(s, c.value, d);
          assert d < c.value ==> Distinct(s, d, c.value);
        }
      }
    } else {
      forall j: nat | j < n && Narrow(m[j]) ensures Signature(m[j]) != Signature(m[n]) {
        assert Classed(s, classes, m, j);
      }
    }
  }

  /** A new class keeps what was classed. */
  lemma ClassAdded(before: Storage, after: Storage, classes: nat, m: seq<Measure>, n: nat)
    requires TableKept(before, classes, m, n) && n < |m| && classes < PALETTE_CAPACITY && Narrow(m[n])
    requires forall c: nat :: c < classes ==> ClassHash(before, c) != Signature(m[n])
    requires ClassHash(after, classes) == Signature(m[n]) && ClassWidth(after, classes) == m[n].consumed
    requires forall c: nat :: c < PALETTE_CAPACITY && c != classes ==> SameClass(before, after, c)
    ensures TableKept(after, classes + 1, m, n + 1)
  {
    TableTells(before, classes, m, n, None);
    SignaturesNext(m, n);
    hide ClassHash, ClassWidth, Signature, Signatures, Seen;
    var more, seen := classes + 1, n + 1;
    forall c: nat | c < more ensures ClassSeen(after, m, seen, c) {
      if c < classes {
        assert ClassSeen(before, m, n, c) && SameClass(before, after, c);
      }
    }
    forall c: nat, d: nat | c < d < more ensures Distinct(after, c, d) {
      assert SameClass(before, after, c);
      assert d < classes ==> SameClass(before, after, d) && Distinct(before, c, d);
    }
    forall i: nat | i < seen && Narrow(m[i]) ensures Classed(after, more, m, i) {
      if i < n {
        assert Classed(before, classes, m, i);
        var c: nat :| c < classes && InClass(before, m, i, c);
        assert SameClass(before, after, c) && InClass(after, m, i, c);
      } else {
        assert InClass(after, m, i, classes);
      }
    }
  }

  lemma ClassFound(s: Storage, classes: nat, m: seq<Measure>, n: nat, c: nat)
    requires TableKept(s, classes, m, n) && n < |m| && Narrow(m[n]) && c < classes && InClass(s, m, n, c)
    ensures TableKept(s, classes, m, n + 1)
  {
    TableTells(s, classes, m, n, Some(c));
    SignaturesNext(m, n);
    hide ClassHash, ClassWidth, Signature, Signatures, Seen;
    var seen := n + 1;
    forall d: nat | d < classes ensures ClassSeen(s, m, seen, d) {
      assert ClassSeen(s, m, n, d);
    }
    forall i: nat | i < seen && Narrow(m[i]) ensures Classed(s, classes, m, i) {
      if i == n {
        assert InClass(s, m, i, c);
      }
    }
  }

  /** A class added to the table keeps the codes. */
  lemma CodesStay(before: Storage, after: Storage, st: Shape, next: Shape, m: seq<Measure>, n: nat)
    requires CodingKept(before, st, m, n) && SameCodes(before, after)
    requires st.classes <= next.classes <= PALETTE_CAPACITY && next == st.(candidate := next.candidate, classes := next.classes)
    requires forall c: nat :: c < st.classes ==> SameClass(before, after, c)
    ensures CodingKept(after, next, m, n)
  {
    hide ClassHash, ClassWidth, Signature, LongestBorder;
    assert Codes(after) == Codes(before);
    forall i: nat | i < n && i < PERIOD_CAPACITY ensures ItemCoded(after, next.classes, m, i) {
      assert ItemCoded(before, st.classes, m, i);
      assert SameClass(before, after, Codes(before)[i] as nat);
    }
  }

  /** An item that is passed over changes nothing. */
  lemma PassedOver(s: Storage, st: Shape, m: seq<Measure>, n: nat)
    requires ShapeKept(s, st, m, n) && n < |m| && !Narrow(m[n])
    ensures ShapeKept(s, st, m, n + 1)
  {
    SignaturesNext(m, n);
    hide ClassHash, ClassWidth, Signature, Signatures, CodingKept;
    var seen := n + 1;
    forall c: nat | c < st.classes ensures ClassSeen(s, m, seen, c) {
      assert ClassSeen(s, m, n, c);
    }
  }

  /** Finds or adds the class of item `index`. A width that contradicts its class ends
      the candidate; no class is left only when the palette is full. */
  method ClassItem(storage: array<byte>, st: Shape, index: nat, width: nat, hash: nat, ghost m: seq<Measure>)
    returns (r: Shape, class_: Option<nat>)
    requires storage.Length == STORAGE_BYTES && index < |m| && m[index].consumed == width < U16_LIMIT && hash == Signature(m[index])
    requires st.candidate && TableKept(storage[..], st.classes, m, index)
    modifies storage
    ensures SameCodes(old(storage[..]), storage[..]) && r == st.(candidate := r.candidate, classes := r.classes)
    ensures class_.Some? <==> Classable(m, index)
    ensures class_.Some? ==> class_.value < r.classes <= PALETTE_CAPACITY && ClassHash(storage[..], class_.value) == hash
    ensures class_.Some? && index < PERIOD_CAPACITY ==>
              && (r.candidate <==> Agreeing(m, index))
              && (r.candidate ==> ClassWidth(storage[..], class_.value) == width)
    ensures class_.Some? && (r.candidate || index >= PERIOD_CAPACITY) ==> TableKept(storage[..], r.classes, m, index + 1)
    ensures class_.Some? && old(CodingKept(storage[..], st, m, index)) ==> CodingKept(storage[..], r, m, index)
  {
    hide ClassHash, ClassWidth, TableKept, CodingKept, GetU16, Codes, Seen, Agreeing, Signatures;
    r := st;
    ghost var before: Storage := storage[..];
    TableSized(before, st.classes, m, index);
    var found := FindClass(storage, r.classes, hash);
    assert storage[..] == before;
    TableTells(before, st.classes, m, index, found);
    match found {
      case Some(c) =>
        if ClassWidth(storage[..], c) != width {
          r := r.(candidate := false);
        }
        class_ := Some(c);
        if r.candidate || index >= PERIOD_CAPACITY {
          ClassFound(before, st.classes, m, index, c);
        }
        if CodingKept(before, st, m, index) {
          CodesStay(before, before, st, r, m, index);
        }
      case None =>
        if r.classes >= PALETTE_CAPACITY {
          return r, None;
        }
        AddClass(storage, r.classes, hash, width);
        ClassAdded(before, storage[..], st.classes, m, index);
        class_ := Some(r.classes);
        r := r.(classes := r.classes + 1);
        if CodingKept(before, st, m, index) {
          CodesStay(before, storage[..], st, r, m, index);
        }
    }
  }

  lemma TableSized(s: Storage, classes: nat, m: seq<Measure>, n: nat)
    requires TableKept(s, classes, m, n)
    ensures classes == Signatures(m, n) <= PALETTE_CAPACITY
  {
  }

  // ----- the code of one item -----

  /** The failure function: follows borders of borders down to one that the new code
      extends. It gives the longest border if it was given the longest ones. */
  method NextPrefix(storage: array<byte>, prefixes: seq<nat>, index: nat) returns (prefix: nat)
    requires storage.Length == STORAGE_BYTES && |prefixes| == PERIOD_CAPACITY && index < PERIOD_CAPACITY
    requires forall j: nat :: j < PERIOD_CAPACITY ==> prefixes[j] <= j
    ensures prefix <= index
    ensures (forall j: nat :: j < index ==> LongestBorder(Codes(storage[..]), j + 1, prefixes[j])) ==>
              LongestBorder(Codes(storage[..]), index + 1, prefix)
  {
    hide LongestBorder, Border;
    ghost var codes := Codes(storage[..]);
    ghost var longest := forall j: nat :: j < index ==> LongestBorder(codes, j + 1, prefixes[j]);
    var code := storage[SHAPE_CODES + index];
    prefix := if index == 0 then 0 else prefixes[index - 1];
    assert forall k: nat :: k < PERIOD_CAPACITY ==> codes[k] == storage[SHAPE_CODES + k];
    BordersBegin(codes, prefixes, index);
    while prefix != 0 && code != storage[SHAPE_CODES + prefix]
      invariant prefix <= index && (index > 0 ==> prefix < index)
      invariant longest && index > 0 ==> Bounds(codes, index, prefix)
    {
      if longest {
        BordersDescend(codes, prefixes, index, prefix);
      }
      prefix := prefixes[prefix - 1];
    }
    if longest {
      BordersEnd(codes, index, prefix);
    }
    if index != 0 && code == storage[SHAPE_CODES + prefix] {
      prefix := prefix + 1;
    }
  }

  /** `prefix` is a border of the first `index` codes, and every longer border of one
      more code has been ruled out. */
  ghost predicate Bounds(codes: seq<byte>, index: nat, prefix: nat)
    requires 0 < index < |codes|
  {
    && Border(codes, index, prefix)
    && forall q: nat :: Border(codes, index, q) && codes[q] == codes[index] ==> q <= prefix
  }

  lemma BordersBegin(codes: seq<byte>, prefixes: seq<nat>, index: nat)
    requires |prefixes| == PERIOD_CAPACITY == |codes| && index < PERIOD_CAPACITY
    ensures (forall j: nat :: j < index ==> LongestBorder(codes, j + 1, prefixes[j])) && index > 0 ==>
              Bounds(codes, index, prefixes[index - 1])
  {
    if (forall j: nat :: j < index ==> LongestBorder(codes, j + 1, prefixes[j])) && index > 0 {
      var last: nat := index - 1;
      assert LongestBorder(codes, last + 1, prefixes[last]);
    }
  }

  lemma BordersDescend(codes: seq<byte>, prefixes: seq<nat>, index: nat, prefix: nat)
    requires 0 < prefix < index < PERIOD_CAPACITY == |codes| == |prefixes|
    requires Bounds(codes, index, prefix) && codes[prefix] != codes[index]
    requires forall j: nat :: j < index ==> LongestBorder(codes, j + 1, prefixes[j])
    ensures Bounds(codes, index, prefixes[prefix - 1])
  {
    var last: nat := prefix - 1;
    var next := prefixes[last];
    assert LongestBorder(codes, last + 1, next);
    BorderOfBorder(codes, index, prefix, next);
    forall q: nat | Border(codes, index, q) && codes[q] == codes[index] ensures q <= next {
      ShorterBorder(codes, index, prefix, q);
    }
  }

  lemma BordersEnd(codes: seq<byte>, index: nat, prefix: nat)
    requires index < |codes| && (index > 0 ==> Bounds(codes, index, prefix)) && (index == 0 ==> prefix == 0)
    requires prefix != 0 ==> codes[prefix] == codes[index]
    ensures LongestBorder(codes, index + 1, if index != 0 && codes[prefix] == codes[index] then prefix + 1 else prefix)
  {
    var next := if index != 0 && codes[prefix] == codes[index] then prefix + 1 else prefix;
    var n := index + 1;
    if index > 0 {
      if codes[prefix] == codes[index] {
        BorderGrows(codes, index, prefix);
      }
      forall q: nat | Border(codes, n, q) ensures q <= next {
        if q > 0 {
          BorderShrinks(codes, index, q - 1);
        }
      }
    }
  }

  /** Storing one of the first 64 codes. */
  lemma CodeAdded(before: Storage, after: Storage, st: Shape, m: seq<Measure>, n: nat, code: byte, prefixes: seq<nat>)
    requires CodingKept(before, st, m, n) && n < |m| && n < PERIOD_CAPACITY && code as nat < st.classes <= PALETTE_CAPACITY
    requires InClass(before, m, n, code as nat)
    requires after == before[SHAPE_CODES + n := code]
    requires |prefixes| == PERIOD_CAPACITY && prefixes[..n] == st.prefixes[..n] && LongestBorder(Codes(after), n + 1, prefixes[n])
    ensures var period := if n + 1 == PERIOD_CAPACITY then PERIOD_CAPACITY - prefixes[n] else 0;
            CodingKept(after, st.(prefixes := prefixes, period := period), m, n + 1)
  {
    hide ClassHash, ClassWidth, Signature;
    assert Codes(after)[n] == code && forall k :: 0 <= k < n ==> Codes(after)[k] == Codes(before)[k];
    forall c: nat | c < PALETTE_CAPACITY ensures SameClass(before, after, c) {
      CodesApart(before, after, c);
    }
    forall i: nat | i < n + 1 ensures ItemCoded(after, st.classes, m, i) {
      assert i < n ==> ItemCoded(before, st.classes, m, i);
      assert SameClass(before, after, Codes(after)[i] as nat);
    }
    forall j: nat | j < n + 1 ensures LongestBorder(Codes(after), j + 1, prefixes[j]) {
      if j < n {
        assert prefixes[..n][j] == st.prefixes[..n][j];
        BordersStay(Codes(before), Codes(after), j + 1, st.prefixes[j]);
      }
    }
  }

  lemma BordersStay(before: seq<byte>, after: seq<byte>, n: nat, p: nat)
    requires |before| == |after| && n <= |before| && LongestBorder(before, n, p)
    requires forall k :: 0 <= k < n ==> after[k] == before[k]
    ensures LongestBorder(after, n, p)
  {
    forall q: nat | Border(after, n, q) ensures q <= p {
      assert Border(before, n, q);
    }
  }

  lemma CodesApart(before: Storage, after: Storage, c: nat)
    requires c < PALETTE_CAPACITY && forall i :: 0 <= i < SHAPE_CODES ==> after[i] == before[i]
    ensures SameClass(before, after, c)
  {
  }

  /** The table lies before the codes. */
  lemma TableApart(before: Storage, after: Storage, classes: nat, m: seq<Measure>, n: nat)
    requires TableKept(before, classes, m, n) && forall i :: 0 <= i < SHAPE_CODES ==> after[i] == before[i]
    ensures TableKept(after, classes, m, n)
  {
    hide ClassHash, ClassWidth, Signature, Signatures;
    forall c: nat | c < classes ensures SameClass(before, after, c) {
      CodesApart(before, after, c);
    }
    forall c: nat | c < classes ensures ClassSeen(after, m, n, c) {
      assert ClassSeen(before, m, n, c) && SameClass(before, after, c);
    }
    forall c: nat, d: nat | c < d < classes ensures Distinct(after, c, d) {
      assert SameClass(before, after, c) && SameClass(before, after, d) && Distinct(before, c, d);
    }
    forall i: nat | i < n && Narrow(m[i]) ensures Classed(after, classes, m, i) {
      assert Classed(before, classes, m, i);
      var c: nat :| c < classes && InClass(before, m, i, c);
      assert SameClass(before, after, c) && InClass(after, m, i, c);
    }
  }

  /** Stores one of the first 64 codes and its prefix; the 64th gives the period. */
  method PlaceCode(storage: array<byte>, st: Shape, index: nat, code: byte, ghost m: seq<Measure>) returns (r: Shape)
    requires storage.Length == STORAGE_BYTES && index < |m| && index < PERIOD_CAPACITY && code as nat < st.classes <= PALETTE_CAPACITY
    requires PrefixesKept(st, m, index) && Narrow(m[index])
    modifies storage
    ensures storage[..] == old(storage[..])[SHAPE_CODES + index := code]
    ensures PrefixesKept(r, m, index + 1) && r.attempted == st.attempted && r.candidate == st.candidate && r.classes == st.classes
    ensures old(CodingKept(storage[..], st, m, index) && InClass(storage[..], m, index, code as nat)) ==>
              CodingKept(storage[..], r, m, index + 1)
  {
    hide ClassHash, ClassWidth, CodingKept, Codes, LongestBorder;
    ghost var before: Storage := storage[..];
    ghost var was := CodingKept(before, st, m, index) && InClass(before, m, index, code as nat);
    storage[SHAPE_CODES + index] := code;
    ghost var after: Storage := storage[..];
    if was {
      BordersKept(before, after, st, m, index, code);
    }
    var prefix := NextPrefix(storage, st.prefixes, index);
    var prefixes := st.prefixes[index := prefix];
    var period: nat := if index + 1 == PERIOD_CAPACITY then PERIOD_CAPACITY - prefix else 0;
    if was {
      CodeAdded(before, after, st, m, index, code, prefixes);
    }
    r := st.(prefixes := prefixes, period := period);
  }

  lemma BordersKept(before: Storage, after: Storage, st: Shape, m: seq<Measure>, n: nat, code: byte)
    requires CodingKept(before, st, m, n) && n < PERIOD_CAPACITY && after == before[SHAPE_CODES + n := code]
    ensures |st.prefixes| == PERIOD_CAPACITY && forall j: nat :: j < n ==> LongestBorder(Codes(after), j + 1, st.prefixes[j])
  {
    hide ClassHash, ClassWidth, LongestBorder, ItemCoded;
    assert forall k :: 0 <= k < n ==> Codes(after)[k] == Codes(before)[k];
    forall j: nat | j < n ensures LongestBorder(Codes(after), j + 1, st.prefixes[j]) {
      BordersStay(Codes(before), Codes(after), j + 1, st.prefixes[j]);
    }
  }

  /** A later item repeats the code of its place exactly when it repeats the signature. */
  lemma CodeRepeats(s: Storage, st: Shape, m: seq<Measure>, n: nat, code: nat)
    requires TableKept(s, st.classes, m, n + 1) && CodingKept(s, st, m, n) && PERIOD_CAPACITY <= n < |m|
    requires code < st.classes && ClassHash(s, code) == Signature(m[n]) && m[n].consumed < U16_LIMIT
    ensures 0 < st.period <= PERIOD_CAPACITY
    ensures code == ShapeCode(s, n % st.period) <==> Lives(m, n)
  {
    hide ClassHash, ClassWidth, Signature, ShapePeriod;
    PeriodOfTable(s, st, m, n);
    var k := n % st.period;
    assert ItemCoded(s, st.classes, m, k);
    var d := Codes(s)[k] as nat;
    assert d == ShapeCode(s, k);
    assert code < d ==> Distinct(s, code, d);
    assert d < code ==> Distinct(s, d, code);
  }

  /** The shortest period does not depend on how many more items were classed. */
  lemma PeriodOfTable(s: Storage, st: Shape, m: seq<Measure>, n: nat)
    requires TableKept(s, st.classes, m, n + 1) && CodingKept(s, st, m, n) && PERIOD_CAPACITY <= n < |m|
    ensures st.period == ShapePeriod(m)
  {
    hide ClassHash, ClassWidth, LongestBorder, ItemCoded, TableKept;
    assert CodingKept(s, st, m, n + 1);
    PeriodIsShortest(s, st, m, n + 1);
  }

  /** A walk that reaches item `index` divides by a period that was never set. */
  ghost predicate NoPeriod(m: seq<Measure>, index: nat)
    requires index < |m|
  {
    index >= PERIOD_CAPACITY && !Narrow(m[PERIOD_CAPACITY - 1]) && Classable(m, index)
  }

  /** Classes one item. A width that contradicts its class ends the candidate, but for
      items after the first 64 the last comparison overwrites that. Nothing is returned
      when that comparison has no period to divide by. */
  method PushShape(storage: array<byte>, st: Shape, index: nat, width: nat, shape: nat, ghost m: seq<Measure>) returns (r: Option<Shape>)
    requires storage.Length == STORAGE_BYTES && index < |m| && m[index].consumed == width <= U32_MAX && m[index].shape == shape
    requires st.candidate && ShapeKept(storage[..], st, m, index)
    modifies storage
    ensures r.None? <==> NoPeriod(m, index)
    ensures r.Some? ==> r.value.attempted == st.attempted
    ensures r.Some? && r.value.candidate ==> ShapeKept(storage[..], r.value, m, index + 1)
    ensures r.Some? && (index < PERIOD_CAPACITY || AllNarrow(m, index)) ==> (r.value.candidate <==> Lives(m, index))
    ensures r.Some? && index >= PERIOD_CAPACITY && !Narrow(m[PERIOD_CAPACITY - 1]) ==> !r.value.candidate
  {
    hide ClassHash, ClassWidth, TableKept, CodingKept, Codes, Seen, Agreeing, Signatures, ShapePeriod;
    if width >= U16_LIMIT {
      return Some(st.(candidate := false));
    }
    ghost var first: Storage := storage[..];
    var next, class_ := ClassItem(storage, st, index, width, shape % U16_LIMIT, m);
    ghost var classed: Storage := storage[..];
    if class_.None? {
      if index < PERIOD_CAPACITY {
        RoomEarly(m, index);
      } else if AllNarrow(m, index) {
        Unseen(m, index);
      }
      return Some(next.(candidate := false));
    }
    var code := class_.value;
    if index < PERIOD_CAPACITY {
      var placed := PlaceCode(storage, next, index, code as byte, m);
      if placed.candidate {
        TableApart(classed, storage[..], next.classes, m, index + 1);
      }
      return Some(placed);
    }
    if next.period == 0 {
      return None;
    }
    var repeats := code == storage[SHAPE_CODES + index % next.period] as nat;
    if AllNarrow(m, index) {
      CodeRepeats(classed, next, m, index, code);
      LaterCodes(classed, next, m, index, repeats);
    }
    r := Some(next.(candidate := repeats));
  }

  /** A signature that was not seen does not repeat. */
  lemma Unseen(m: seq<Measure>, n: nat)
    requires PERIOD_CAPACITY <= n < |m| && AllNarrow(m, n) && !Classable(m, n)
    ensures !Lives(m, n)
  {
    hide Signature;
    var k := n % ShapePeriod(m);
    assert Narrow(m[k]);
  }

  lemma LaterCodes(s: Storage, st: Shape, m: seq<Measure>, n: nat, candidate: bool)
    requires CodingKept(s, st, m, n) && PERIOD_CAPACITY <= n < |m|
    ensures CodingKept(s, st.(candidate := candidate), m, n + 1)
  {
    hide ClassHash, ClassWidth, LongestBorder, Signature;
    forall i: nat | i < n + 1 && i < PERIOD_CAPACITY ensures ItemCoded(s, st.classes, m, i) {
    }
  }
}
