/** A sequential schema as data: scalars, constants, bounded or terminal bytes, counted
    arrays, flags with their conditional groups, and the geometry of every field. */
module SequentialSchema {
  import opened Arith
  import opened Base
  import opened Grammar
  import opened Arrays
  import opened Writers
  import opened ArrayWriters

  /** Item schemas; their own errors are opaque codes. */
  type Item = ItemSchema<nat>

  /** Where a field starts: after the previous one with padding and alignment, or at a
      position counted from the schema start. */
  datatype Placement = Follow(pad: nat, align: Option<nat>) | At(position: usize) | AtField(controller: nat)

  /** Field kinds. Controllers are named by field index. */
  datatype Kind =
    | ScalarKind(scalar: Scalar, boolean: bool, constant: Option<int>)
    | FixedKind(len: nat, expected: Option<seq<byte>>)
    | BoundedKind(length: nat)
    | RestKind
    | ArrayKind(item: Item, count: nat)
    | FlagKind(presence: nat)

  datatype Field = Field(kind: Kind, placement: Placement, condition: Option<nat>)

  /** What one field represents: conditional scalars may be absent, an array is its
      represented span with its count. */
  datatype Value =
    | Int(v: int)
    | Bytes(bytes: seq<byte>)
    | Counted(span: seq<byte>, count: nat)
    | Present(present: bool)
    | Absent

  // ----- what the schema compiler accepts -----

  predicate Plain(field: Field) {
    field.placement == Follow(0, None) && field.condition.None?
  }

  /** An earlier, unconditional, unplaced, nonconstant integer. */
  predicate Controller(fields: seq<Field>, k: nat, c: nat, unsigned: bool) {
    && c < k <= |fields| && fields[c].kind.ScalarKind? && Plain(fields[c])
    && !fields[c].kind.boolean && fields[c].kind.constant.None?
    && (unsigned ==> !fields[c].kind.scalar.signed)
  }

  predicate CountsBy(field: Field, c: nat) {
    field.kind.ArrayKind? && field.kind.count == c
  }

  /** Any role but item count. */
  predicate GovernedBy(field: Field, c: nat) {
    field.kind == BoundedKind(c) || field.kind == FlagKind(c) || field.placement == AtField(c) || field.condition == Some(c)
  }

  predicate ValidCondition(fields: seq<Field>, k: nat)
    requires k < |fields|
  {
    var field := fields[k];
    field.condition.Some? ==>
      var f := field.condition.value;
      && f < k && fields[f].kind.FlagKind? && field.placement == Follow(0, None)
      && field.kind.ScalarKind? && !field.kind.boolean && field.kind.constant.None?
      && forall m :: f < m <= k ==> fields[m].condition == Some(f)
  }

  predicate ValidKind(fields: seq<Field>, k: nat)
    requires k < |fields|
  {
    match fields[k].kind
    case ScalarKind(scalar, boolean, constant) =>
      constant.Some? ==> Representable(scalar, constant.value) && (boolean ==> 0 <= constant.value <= 1)
    case FixedKind(len, expected) => expected.Some? ==> |expected.value| == len
    case BoundedKind(c) => Controller(fields, k, c, true)
    case RestKind => k + 1 == |fields|
    case ArrayKind(_, c) => Controller(fields, k, c, false)
    case FlagKind(c) =>
      && c < k && Plain(fields[k]) && Plain(fields[c])
      && fields[c].kind.ScalarKind? && fields[c].kind.boolean && fields[c].kind.constant.None?
      && !fields[c].kind.scalar.signed && fields[c].kind.scalar.width > 0
  }

  predicate ValidPlacement(fields: seq<Field>, k: nat)
    requires k < |fields|
  {
    fields[k].placement.AtField? ==> Controller(fields, k, fields[k].placement.controller, true)
  }

  /** A count controller has one array and no other role. */
  predicate OwnCounts(fields: seq<Field>, k: nat)
    requires k < |fields|
  {
    fields[k].kind.ArrayKind? ==>
      forall j :: 0 <= j < |fields| ==>
        !GovernedBy(fields[j], fields[k].kind.count) && (CountsBy(fields[j], fields[k].kind.count) ==> j == k)
  }

  /** A presence controller has one flag; a length controller places nothing. */
  predicate OwnRoles(fields: seq<Field>, k: nat)
    requires k < |fields|
  {
    match fields[k].kind
    case FlagKind(c) => forall j :: 0 <= j < |fields| && fields[j].kind == FlagKind(c) ==> j == k
    case BoundedKind(c) => forall j :: 0 <= j < |fields| ==> fields[j].placement != AtField(c)
    case _ => true
  }

  predicate ValidField(fields: seq<Field>, k: nat)
    requires k < |fields|
  {
    && ValidCondition(fields, k) && ValidKind(fields, k) && ValidPlacement(fields, k)
    && OwnCounts(fields, k) && OwnRoles(fields, k)
  }

  predicate ValidSchema(fields: seq<Field>) {
    forall k :: 0 <= k < |fields| ==> ValidField(fields, k)
  }

  /** Items that a parent walks to find the field after their array frame
      deterministically from their own bytes. */
  ghost predicate LeadingItems(fields: seq<Field>) {
    forall k :: 0 <= k < |fields| && fields[k].kind.ArrayKind? && k + 1 < |fields| ==> Walkable(fields[k].kind.item)
  }

  /** Only variable-width items with a leading extent are ever walked. */
  ghost predicate Walkable(item: Item) {
    item.leading && item.fixed.None? ==> LeadingItem(item)
  }

  // ----- layout -----

  function IntAt(values: seq<Value>, c: nat): int {
    if c < |values| && values[c].Int? then values[c].v else 0
  }

  /** A conditional field whose flag is off. */
  predicate Suppressed(field: Field, values: seq<Value>) {
    field.condition.Some? && !(field.condition.value < |values| && values[field.condition.value] == Present(true))
  }

  /** Where a field starts when the previous one ends at `cursor`. */
  function Place(field: Field, values: seq<Value>, cursor: nat): Option<nat> {
    if Suppressed(field, values) then Some(cursor)
    else
      match field.placement
      case At(position) => Some(position)
      case AtField(c) => if IntAt(values, c) < 0 then None else Some(IntAt(values, c))
      case Follow(pad, None) => Some(cursor + pad)
      case Follow(pad, Some(align)) => Aligned(cursor + pad, align)
  }

  /** The stored bytes of one field. */
  function Stored(field: Field, value: Value): seq<byte> {
    match value
    case Int(v) =>
      if field.kind.ScalarKind? && Representable(field.kind.scalar, v) then EncodeScalar(field.kind.scalar, v) else []
    case Bytes(bytes) => bytes
    case Counted(span, _) => span
    case Present(_) => []
    case Absent => []
  }

  /** The bytes of one field after `prefix`: zeros up to its start, then what it stores. */
  function EmitField(field: Field, values: seq<Value>, value: Value, prefix: seq<byte>): Option<seq<byte>> {
    match Place(field, values, |prefix|)
    case None => None
    case Some(start) =>
      if start < |prefix| then None else Some(prefix + Zeros(start - |prefix|) + Stored(field, value))
  }

  /** The representation of the first `n` fields. */
  function Emit(fields: seq<Field>, values: seq<Value>, n: nat): Option<seq<byte>>
    requires n <= |fields| && n <= |values|
  {
    if n == 0 then Some([])
    else
      match Emit(fields, values, n - 1)
      case None => None
      case Some(prefix) => EmitField(fields[n - 1], values, values[n - 1], prefix)
  }

  // ----- consistency -----

  /** Field `k` has a value of its kind that agrees with the fields controlling it. */
  ghost predicate Consistent(fields: seq<Field>, values: seq<Value>, k: nat)
    requires k < |fields| && k < |values|
  {
    var value := values[k];
    match fields[k].kind
    case ScalarKind(scalar, boolean, constant) =>
      if Suppressed(fields[k], values) then value == Absent
      else
        && value.Int? && Representable(scalar, value.v) && (boolean ==> 0 <= value.v <= 1)
        && (constant.Some? ==> value.v == constant.value)
    case FixedKind(len, expected) =>
      value.Bytes? && |value.bytes| == len && (expected.Some? ==> value.bytes == expected.value)
    case BoundedKind(c) => value.Bytes? && c < |values| && values[c] == Int(|value.bytes|)
    case RestKind => value.Bytes?
    case ArrayKind(item, c) =>
      && value.Counted? && c < |values| && values[c] == Int(value.count)
      && exists items :: Emitted(item, value.span, items, value.count)
    case FlagKind(c) => value.Present? && c < |values| && values[c] == Int(if value.present then 1 else 0)
  }

  ghost predicate AllConsistent(fields: seq<Field>, values: seq<Value>) {
    |values| == |fields| && forall k :: 0 <= k < |fields| ==> Consistent(fields, values, k)
  }

  // ----- where the bytes of a layout lie -----

  /** What the format says of a field's start, counted from the schema start: a suppressed
      field stays at the cursor, a placed one is where its position or its controller says,
      and any other takes the first allowed position. */
  ghost predicate StartsAt(field: Field, values: seq<Value>, cursor: nat, start: nat) {
    if Suppressed(field, values) then start == cursor
    else
      match field.placement
      case At(position) => start == position
      case AtField(c) => c < |values| && values[c] == Int(start)
      case Follow(pad, align) => FirstAllowed(pad, align, cursor, Some(start))
  }

  /** Field `k` occupies the end of `bytes[cursor..end]`, from the start the format says. */
  ghost predicate LiesAt(fields: seq<Field>, values: seq<Value>, bytes: seq<byte>, k: nat, cursor: nat, end: nat)
    requires k < |fields| && k < |values|
  {
    var stored := Stored(fields[k], values[k]);
    && cursor + |stored| <= end <= |bytes| && bytes[end - |stored|..end] == stored
    && StartsAt(fields[k], values, cursor, end - |stored|)
  }

  /** All fields lie in `bytes`, one after the other, field `k` up to `ends[k + 1]`. */
  ghost predicate LieIn(fields: seq<Field>, values: seq<Value>, bytes: seq<byte>, ends: seq<nat>) {
    && |values| == |fields| && |ends| == |fields| + 1 && ends[0] == 0
    && forall k, next :: 0 <= k < |fields| && next == k + 1 ==> LiesAt(fields, values, bytes, k, ends[k], ends[next])
  }

  /** Nothing but zeros lies between the fields. */
  ghost predicate GapsZero(fields: seq<Field>, values: seq<Value>, bytes: seq<byte>, ends: seq<nat>)
    requires |values| == |fields| && |ends| == |fields| + 1
  {
    forall k, next, i :: 0 <= k < |fields| && next == k + 1 && ends[k] <= i < ends[next] - |Stored(fields[k], values[k])| && i < |bytes| ==>
      bytes[i] == 0
  }

  /** `region` is all fields in order, each where the format says, with zeros between. */
  ghost predicate LaysOut(fields: seq<Field>, values: seq<Value>, region: seq<byte>) {
    exists ends :: LieIn(fields, values, region, ends) && GapsZero(fields, values, region, ends) && ends[|fields|] == |region|
  }

  // ----- facts about layout -----

  lemma {:induction false} EmitEarlier(fields: seq<Field>, values: seq<Value>, k: nat, n: nat)
    requires k <= n <= |fields| && n <= |values| && Emit(fields, values, n).Some?
    ensures Emit(fields, values, k).Some? && Emit(fields, values, k).value <= Emit(fields, values, n).value
    decreases n
  {
    hide Place, Stored;
    if k < n {
      EmitEarlier(fields, values, k, n - 1);
    }
  }

  /** The representation of a prefix of the fields depends on their values alone. */
  lemma {:induction false} EmitSame(fields: seq<Field>, a: seq<Value>, b: seq<Value>, n: nat)
    requires n <= |fields| && n <= |a| && n <= |b| && a[..n] == b[..n] && ValidSchema(fields)
    ensures Emit(fields, a, n) == Emit(fields, b, n)
    decreases n
  {
    if n > 0 {
      assert a[..n - 1] == a[..n][..n - 1] && b[..n - 1] == b[..n][..n - 1];
      assert a[n - 1] == a[..n][n - 1] && b[n - 1] == b[..n][n - 1];
      EmitSame(fields, a, b, n - 1);
      PlaceSame(fields, a, b, n - 1);
      hide Place, Stored, Emit;
      EmitNext(fields, a, n - 1);
      EmitNext(fields, b, n - 1);
    }
  }

  lemma EmitNext(fields: seq<Field>, values: seq<Value>, k: nat)
    requires k < |fields| && k < |values|
    ensures Emit(fields, values, k + 1) ==
              if Emit(fields, values, k).None? then None
              else EmitField(fields[k], values, values[k], Emit(fields, values, k).value)
  {
    hide EmitField;
  }

  lemma PlaceSame(fields: seq<Field>, a: seq<Value>, b: seq<Value>, k: nat)
    requires k < |fields| && k <= |a| && k <= |b| && a[..k] == b[..k] && ValidSchema(fields)
    ensures forall cursor: nat :: Place(fields[k], a, cursor) == Place(fields[k], b, cursor)
    ensures Suppressed(fields[k], a) == Suppressed(fields[k], b)
  {
    assert ValidField(fields, k);
    forall c: nat | c < k ensures a[c] == b[c] {
      assert a[..k][c] == b[..k][c];
    }
  }

  /** Changing a count leaves the layout alone and rewrites its own bytes. */
  lemma {:induction false} EmitCount(fields: seq<Field>, values: seq<Value>, c: nat, count: nat, k: nat, n: nat)
    requires ValidSchema(fields) && k < |fields| && CountsBy(fields[k], c)
    requires c < n <= |fields| && n <= |values| && fields[c].kind.ScalarKind?
    requires values[c].Int? && Representable(fields[c].kind.scalar, values[c].v)
    requires Representable(fields[c].kind.scalar, count) && Emit(fields, values, n).Some?
    ensures Emit(fields, values, c).Some?
    ensures var offset, patch := |Emit(fields, values, c).value|, EncodeScalar(fields[c].kind.scalar, count);
            && offset + |patch| <= |Emit(fields, values, n).value|
            && Emit(fields, values[c := Int(count)], n) == Some(Poked(Emit(fields, values, n).value, offset, patch))
    decreases n
  {
    hide Emit, Place, EmitField, Stored, ValidSchema, Representable, EncodeScalar, CountsBy;
    var after := values[c := Int(count)];
    var patch := EncodeScalar(fields[c].kind.scalar, count);
    EmitEarlier(fields, values, c, n);
    EmitEarlier(fields, values, n - 1, n);
    EmitNext(fields, values, n - 1);
    EmitNext(fields, after, n - 1);
    if n == c + 1 {
      assert after[..c] == values[..c];
      EmitSame(fields, values, after, c);
      CountOwnField(fields, values, c, count, k, Emit(fields, values, c).value);
    } else {
      EmitCount(fields, values, c, count, k, n - 1);
      PlaceWithoutCount(fields, values, c, count, k, n - 1);
      CountLaterField(fields[n - 1], values, after, values[n - 1], Emit(fields, values, n - 1).value,
                      |Emit(fields, values, c).value|, patch);
    }
  }

  lemma CountOwnField(fields: seq<Field>, values: seq<Value>, c: nat, count: nat, k: nat, prefix: seq<byte>)
    requires ValidSchema(fields) && k < |fields| && CountsBy(fields[k], c) && c < |fields| && c < |values|
    requires fields[c].kind.ScalarKind? && Representable(fields[c].kind.scalar, count)
    requires values[c].Int? && Representable(fields[c].kind.scalar, values[c].v)
    ensures var after, patch := values[c := Int(count)], EncodeScalar(fields[c].kind.scalar, count);
            && EmitField(fields[c], values, values[c], prefix).Some?
            && |prefix| + |patch| == |EmitField(fields[c], values, values[c], prefix).value|
            && EmitField(fields[c], after, after[c], prefix)
                 == Some(Poked(EmitField(fields[c], values, values[c], prefix).value, |prefix|, patch))
  {
    hide Representable, EncodeScalar;
    assert ValidField(fields, k) && Controller(fields, k, c, false);
    StoredAtEnd(prefix, EncodeScalar(fields[c].kind.scalar, values[c].v), EncodeScalar(fields[c].kind.scalar, count));
  }

  lemma CountLaterField(field: Field, values: seq<Value>, after: seq<Value>, value: Value, prefix: seq<byte>, offset: nat, patch: seq<byte>)
    requires offset + |patch| <= |prefix| && EmitField(field, values, value, prefix).Some?
    requires Place(field, after, |prefix|) == Place(field, values, |prefix|)
    ensures offset + |patch| <= |EmitField(field, values, value, prefix).value|
    ensures EmitField(field, after, value, Poked(prefix, offset, patch))
         == Some(Poked(EmitField(field, values, value, prefix).value, offset, patch))
  {
    hide Place, Stored;
    var start := Place(field, values, |prefix|).value;
    var more := Zeros(start - |prefix|) + Stored(field, value);
    PokedPrefix(prefix, offset, patch, more);
    assert prefix + Zeros(start - |prefix|) + Stored(field, value) == prefix + more;
    assert Poked(prefix, offset, patch) + Zeros(start - |prefix|) + Stored(field, value) == Poked(prefix, offset, patch) + more;
  }

  lemma StoredAtEnd(prefix: seq<byte>, before: seq<byte>, patch: seq<byte>)
    requires |before| == |patch|
    ensures Poked(prefix + Zeros(0) + before, |prefix|, patch) == prefix + Zeros(0) + patch
  {
  }

  lemma PokedPrefix(prefix: seq<byte>, offset: nat, patch: seq<byte>, more: seq<byte>)
    requires offset + |patch| <= |prefix|
    ensures Poked(prefix + more, offset, patch) == Poked(prefix, offset, patch) + more
  {
  }

  lemma PlaceWithoutCount(fields: seq<Field>, values: seq<Value>, c: nat, count: nat, k: nat, j: nat)
    requires ValidSchema(fields) && k < |fields| && CountsBy(fields[k], c) && c < |values| && j < |fields|
    requires values[c].Int?
    ensures forall cursor: nat :: Place(fields[j], values[c := Int(count)], cursor) == Place(fields[j], values, cursor)
  {
    assert ValidField(fields, k);
    assert OwnCounts(fields, k);
    assert !GovernedBy(fields[j], c);
  }

  // ----- layouts that differ in counts alone -----

  ghost predicate CountController(fields: seq<Field>, c: nat) {
    exists k :: 0 <= k < |fields| && CountsBy(fields[k], c)
  }

  /** The values agree at `j`, or both are counts that fit. */
  ghost predicate Alike(fields: seq<Field>, a: seq<Value>, b: seq<Value>, j: nat)
    requires j < |fields| == |a| == |b|
  {
    a[j] == b[j]
    || (CountController(fields, j) && fields[j].kind.ScalarKind? && a[j].Int? && b[j].Int?
        && Representable(fields[j].kind.scalar, a[j].v) && Representable(fields[j].kind.scalar, b[j].v))
  }

  /** The layouts are both available, and then equally long. */
  ghost predicate SameExtent(a: Option<seq<byte>>, b: Option<seq<byte>>) {
    (a.Some? <==> b.Some?) && (a.Some? ==> |a.value| == |b.value|)
  }

  lemma CountsGovernNothing(fields: seq<Field>, j: nat, c: nat)
    requires ValidSchema(fields) && j < |fields|
    ensures CountController(fields, c) ==> !GovernedBy(fields[j], c)
  {
    if CountController(fields, c) {
      var k :| 0 <= k < |fields| && CountsBy(fields[k], c);
      assert ValidField(fields, k) && OwnCounts(fields, k);
    }
  }

  lemma AlikePlaces(fields: seq<Field>, a: seq<Value>, b: seq<Value>, j: nat)
    requires ValidSchema(fields) && |fields| == |a| == |b| && j < |fields|
    requires forall i :: 0 <= i < |fields| ==> Alike(fields, a, b, i)
    ensures forall cursor: nat :: Place(fields[j], a, cursor) == Place(fields[j], b, cursor)
  {
    forall c | 0 <= c < |fields| && GovernedBy(fields[j], c) ensures a[c] == b[c] {
      assert Alike(fields, a, b, c);
      CountsGovernNothing(fields, j, c);
    }
    assert ValidField(fields, j);
    hide ValidSchema, OwnCounts, OwnRoles, ValidKind;
    assert fields[j].placement.AtField? ==> GovernedBy(fields[j], fields[j].placement.controller);
    assert fields[j].condition.Some? ==> GovernedBy(fields[j], fields[j].condition.value);
  }

  lemma StoredAlike(fields: seq<Field>, a: seq<Value>, b: seq<Value>, j: nat)
    requires |fields| == |a| == |b| && j < |fields| && Alike(fields, a, b, j)
    ensures |Stored(fields[j], a[j])| == |Stored(fields[j], b[j])|
  {
  }

  /** Counts do not decide where anything lies. */
  lemma {:induction false} EmitAlike(fields: seq<Field>, a: seq<Value>, b: seq<Value>, n: nat)
    requires ValidSchema(fields) && |fields| == |a| == |b| && n <= |fields|
    requires forall i :: 0 <= i < |fields| ==> Alike(fields, a, b, i)
    ensures SameExtent(Emit(fields, a, n), Emit(fields, b, n))
    decreases n
  {
    hide Place, Stored, Alike, Emit, ValidSchema;
    EmitNone(fields, a);
    EmitNone(fields, b);
    if n > 0 {
      EmitAlike(fields, a, b, n - 1);
      EmitNext(fields, a, n - 1);
      EmitNext(fields, b, n - 1);
      AlikePlaces(fields, a, b, n - 1);
      StoredAlike(fields, a, b, n - 1);
    }
  }

  lemma EmitNone(fields: seq<Field>, values: seq<Value>)
    ensures Emit(fields, values, 0) == Some([])
  {
  }

  // ----- the layout is what the format says -----

  /** A position controller holds an integer. */
  predicate PositionKnown(field: Field, values: seq<Value>) {
    field.placement.AtField? ==> field.placement.controller < |values| && values[field.placement.controller].Int?
  }

  /** `Place` computes the start the format says, and is unavailable when there is none. */
  lemma PlaceIs(field: Field, values: seq<Value>, cursor: nat, start: nat)
    requires PositionKnown(field, values)
    ensures Place(field, values, cursor) == Some(start) <==> StartsAt(field, values, cursor, start)
  {
    if !Suppressed(field, values) && field.placement.Follow? {
      ScalarPositionIsFirst(cursor, field.placement.pad, field.placement.align);
    }
  }

  ghost predicate PositionsKnown(fields: seq<Field>, values: seq<Value>) {
    forall k :: 0 <= k < |fields| ==> PositionKnown(fields[k], values)
  }

  lemma ConsistentPositions(fields: seq<Field>, values: seq<Value>)
    requires ValidSchema(fields) && AllConsistent(fields, values)
    ensures PositionsKnown(fields, values)
  {
    hide Representable, Emitted, OwnCounts, OwnRoles;
    forall k | 0 <= k < |fields| ensures PositionKnown(fields[k], values) {
      assert ValidField(fields, k);
      if fields[k].placement.AtField? {
        assert Consistent(fields, values, fields[k].placement.controller);
      }
    }
  }

  /** Where the fields of an available layout end. */
  function Ends(fields: seq<Field>, values: seq<Value>): (ends: seq<nat>)
    requires |values| == |fields|
    ensures |ends| == |fields| + 1
    ensures forall k :: 0 <= k <= |fields| && Emit(fields, values, k).Some? ==> ends[k] == |Emit(fields, values, k).value|
  {
    seq(|fields| + 1, k requires 0 <= k <= |fields| =>
      if Emit(fields, values, k).Some? then |Emit(fields, values, k).value| else 0)
  }

  lemma EmitLies(fields: seq<Field>, values: seq<Value>, region: seq<byte>, k: nat, next: nat)
    requires |values| == |fields| && PositionsKnown(fields, values) && Emit(fields, values, |fields|) == Some(region)
    requires k < |fields| && next == k + 1
    ensures Emit(fields, values, k).Some? && Emit(fields, values, next).Some?
    ensures var cursor, end, stored := |Emit(fields, values, k).value|, |Emit(fields, values, next).value|, Stored(fields[k], values[k]);
            && LiesAt(fields, values, region, k, cursor, end)
            && forall i :: cursor <= i < end - |stored| ==> region[i] == 0
  {
    hide Place, Stored, StartsAt;
    EmitEarlier(fields, values, next, |fields|);
    EmitEarlier(fields, values, k, next);
    EmitNext(fields, values, k);
    hide Emit;
    var prefix, upto := Emit(fields, values, k).value, Emit(fields, values, next).value;
    var stored := Stored(fields[k], values[k]);
    var start := |upto| - |stored|;
    PlaceIs(fields[k], values, |prefix|, start);
    assert upto[start..] == stored;
    assert region[..|upto|] == upto;
    assert region[start..|upto|] == upto[start..];
    forall i | |prefix| <= i < start ensures region[i] == 0 {
      assert region[i] == upto[i] == (prefix + Zeros(start - |prefix|))[i];
    }
  }

  /** Fields that lie in some bytes end where those of their layout do. */
  lemma {:induction false} LiesExtent(fields: seq<Field>, values: seq<Value>, bytes: seq<byte>, ends: seq<nat>, k: nat)
    requires PositionsKnown(fields, values) && LieIn(fields, values, bytes, ends) && k <= |fields|
    ensures Emit(fields, values, k).Some? && |Emit(fields, values, k).value| == ends[k]
    ensures GapsZero(fields, values, bytes, ends) ==> ends[k] <= |bytes| && Emit(fields, values, k).value == bytes[..ends[k]]
    decreases k
  {
    hide Place, Stored, StartsAt, Emit;
    if k == 0 {
      EmitNone(fields, values);
    } else {
      var last := k - 1;
      LiesExtent(fields, values, bytes, ends, last);
      assert LiesAt(fields, values, bytes, last, ends[last], ends[k]);
      EmitNext(fields, values, last);
      var prefix, stored := Emit(fields, values, last).value, Stored(fields[last], values[last]);
      var start := ends[k] - |stored|;
      PlaceIs(fields[last], values, ends[last], start);
      if GapsZero(fields, values, bytes, ends) {
        GapIs(bytes, ends[last], start);
        assert bytes[..ends[k]] == bytes[..ends[last]] + bytes[ends[last]..start] + bytes[start..ends[k]];
      }
    }
  }

  lemma GapIs(bytes: seq<byte>, from: nat, to: nat)
    requires from <= to <= |bytes| && forall i :: from <= i < to ==> bytes[i] == 0
    ensures bytes[from..to] == Zeros(to - from)
  {
  }

  /** A region is the layout of the values exactly when every field lies in it where the
      format says, in order, with zeros between and nothing after. */
  lemma LayoutIs(fields: seq<Field>, values: seq<Value>, region: seq<byte>)
    requires |values| == |fields| && PositionsKnown(fields, values)
    ensures Emit(fields, values, |fields|) == Some(region) <==> LaysOut(fields, values, region)
  {
    hide Emit, LiesAt, Stored, PositionsKnown;
    if Emit(fields, values, |fields|) == Some(region) {
      var ends := Ends(fields, values);
      EmitNone(fields, values);
      forall k, next | 0 <= k < |fields| && next == k + 1
        ensures LiesAt(fields, values, region, k, ends[k], ends[next])
        ensures forall i :: ends[k] <= i < ends[next] - |Stored(fields[k], values[k])| && i < |region| ==> region[i] == 0
      {
        EmitLies(fields, values, region, k, next);
      }
      assert LieIn(fields, values, region, ends);
    }
    if LaysOut(fields, values, region) {
      var ends :| LieIn(fields, values, region, ends) && GapsZero(fields, values, region, ends) && ends[|fields|] == |region|;
      LiesExtent(fields, values, region, ends, |fields|);
      assert region[..|region|] == region;
    }
  }
}
