/** The generated detached builder: it emits every field on a child writer in order,
    derives constants, lengths and presence, and patches counts once items are written. */
module SequentialWriter {
  import opened Base
  import opened Grammar
  import opened Arrays
  import opened Output
  import opened Writers
  import OutputRuns
  import opened ArrayWriters
  import opened SequentialSchema
  import opened SequentialFrame

  /** What the typed builder holds for a field. Flags hold their choice; conditional
      scalars are given or absent with it; arrays hold a deferred source. */
  datatype Built = Given(value: Value) | Streamed(sources: seq<ItemSource>) | Derived

  datatype BuildError =
    | LayoutFailed(field: nat)
    | LengthConflict(controller: nat, expected: nat, actual: nat)
    | WriteFailed(error: OutputError)

  // ----- roles of a scalar -----

  datatype Role = ByteLength | ItemCount | Presence

  predicate HasRole(field: Field, role: Role, c: nat) {
    match role
    case ByteLength => field.kind == BoundedKind(c)
    case ItemCount => CountsBy(field, c)
    case Presence => field.kind == FlagKind(c)
  }

  /** The first dependent of `c` in a role, from field `j` on. */
  function FirstWith(fields: seq<Field>, role: Role, c: nat, j: nat): (r: Option<nat>)
    requires j <= |fields|
    ensures r.Some? ==> j <= r.value < |fields| && HasRole(fields[r.value], role, c)
    ensures forall k :: j <= k < (if r.Some? then r.value else |fields|) ==> !HasRole(fields[k], role, c)
    decreases |fields| - j
  {
    if j == |fields| then None
    else if HasRole(fields[j], role, c) then Some(j)
    else FirstWith(fields, role, c, j + 1)
  }

  predicate DerivedScalar(fields: seq<Field>, k: nat)
    requires k < |fields| && fields[k].kind.ScalarKind?
  {
    || fields[k].kind.constant.Some? || FirstWith(fields, ItemCount, k, 0).Some?
    || FirstWith(fields, Presence, k, 0).Some? || FirstWith(fields, ByteLength, k, 0).Some?
  }

  /** The builder's types for field `k`. */
  ghost predicate BuiltFits(fields: seq<Field>, build: seq<Built>, k: nat)
    requires k < |fields| == |build|
  {
    match fields[k].kind
    case ScalarKind(scalar, boolean, _) =>
      if fields[k].condition.Some? then
        && fields[k].condition.value < |build|
        && build[k].Given?
        && (if build[fields[k].condition.value] == Given(Present(true))
            then build[k].value.Int? && Representable(scalar, build[k].value.v)
            else build[k].value == Absent)
      else if DerivedScalar(fields, k) then build[k] == Derived
      else
        && build[k].Given? && build[k].value.Int? && Representable(scalar, build[k].value.v)
        && (boolean ==> 0 <= build[k].value.v <= 1)
    case FixedKind(len, expected) =>
      if expected.Some? then build[k] == Derived
      else build[k].Given? && build[k].value.Bytes? && |build[k].value.bytes| == len
    case BoundedKind(_) => build[k].Given? && build[k].value.Bytes?
    case RestKind => build[k].Given? && build[k].value.Bytes?
    case ArrayKind(item, _) => build[k].Streamed? && ValidSources(item, build[k].sources)
    case FlagKind(_) => build[k].Given? && build[k].value.Present?
  }

  ghost predicate CompleteBuild(fields: seq<Field>, build: seq<Built>) {
    |build| == |fields| && forall k :: 0 <= k < |fields| ==> BuiltFits(fields, build, k)
  }

  // ----- what a build means -----

  /** The bytes of a byte field. */
  function BytesOf(fields: seq<Field>, build: seq<Built>, k: nat): seq<byte>
    requires k < |fields| == |build|
  {
    if fields[k].kind.FixedKind? && fields[k].kind.expected.Some? then fields[k].kind.expected.value
    else if build[k].Given? && build[k].value.Bytes? then build[k].value.bytes else []
  }

  function SourcesOf(build: seq<Built>, k: nat): seq<ItemSource>
    requires k < |build|
  {
    if build[k].Streamed? then build[k].sources else []
  }

  /** The value field `k` represents: what the caller gave, or what it is derived from. */
  function ValueOf(fields: seq<Field>, build: seq<Built>, k: nat): Value
    requires k < |fields| == |build|
  {
    if build[k].Given? then build[k].value
    else
      match fields[k].kind
      case ScalarKind(_, _, constant) =>
        (var counted, flag, length :=
           FirstWith(fields, ItemCount, k, 0), FirstWith(fields, Presence, k, 0), FirstWith(fields, ByteLength, k, 0);
         if constant.Some? then Int(constant.value)
         else if counted.Some? then Int(|SourcesOf(build, counted.value)|)
         else if flag.Some? then Int(if build[flag.value] == Given(Present(true)) then 1 else 0)
         else if length.Some? then Int(|BytesOf(fields, build, length.value)|)
         else Absent)
      case ArrayKind(_, _) => Counted(Concat(BytesOfSources(SourcesOf(build, k))), |SourcesOf(build, k)|)
      case _ => Bytes(BytesOf(fields, build, k))
  }

  function Values(fields: seq<Field>, build: seq<Built>): (values: seq<Value>)
    requires |fields| == |build|
    ensures |values| == |fields| && forall k :: 0 <= k < |fields| ==> values[k] == ValueOf(fields, build, k)
  {
    seq(|fields|, k requires 0 <= k < |fields| => ValueOf(fields, build, k))
  }

  /** Whether the derived values of field `k` exist: shared lengths agree and fit, items
      are not empty and their count fits. */
  ghost predicate Derivable(fields: seq<Field>, build: seq<Built>, k: nat)
    requires k < |fields| == |build|
  {
    match fields[k].kind
    case ScalarKind(scalar, _, _) =>
      var length := FirstWith(fields, ByteLength, k, 0);
      length.Some? ==>
        && Representable(scalar, |BytesOf(fields, build, length.value)|)
        && forall j :: 0 <= j < |fields| ==> SharesLength(fields, build, k, j, |BytesOf(fields, build, length.value)|)
    case ArrayKind(_, c) =>
      && NonEmpty(SourcesOf(build, k))
      && (c < |fields| && fields[c].kind.ScalarKind? ==> Representable(fields[c].kind.scalar, |SourcesOf(build, k)|))
    case _ => true
  }

  predicate SharesLength(fields: seq<Field>, build: seq<Built>, k: nat, j: nat, len: nat)
    requires j < |fields| == |build|
  {
    fields[j].kind == BoundedKind(k) ==> |BytesOf(fields, build, j)| == len
  }

  /** Everything the builder derives exists. */
  ghost predicate Buildable(fields: seq<Field>, build: seq<Built>) {
    |build| == |fields| && forall k :: 0 <= k < |fields| ==> Derivable(fields, build, k)
  }

  /** A scalar has at most one derived role, and a constant has none. */
  lemma RolesOf(fields: seq<Field>, k: nat)
    requires ValidSchema(fields) && k < |fields| && fields[k].kind.ScalarKind?
    ensures forall j :: 0 <= j < |fields| && fields[j].kind == BoundedKind(k) ==>
              fields[k].kind.constant.None? && !fields[k].kind.boolean && Plain(fields[k])
              && FirstWith(fields, ByteLength, k, 0).Some?
              && FirstWith(fields, ItemCount, k, 0).None? && FirstWith(fields, Presence, k, 0).None?
    ensures forall j :: 0 <= j < |fields| && fields[j].kind == FlagKind(k) ==>
              fields[k].kind.constant.None? && !fields[k].kind.scalar.signed && fields[k].kind.scalar.width > 0
              && Plain(fields[k]) && FirstWith(fields, Presence, k, 0) == Some(j)
              && FirstWith(fields, ItemCount, k, 0).None? && FirstWith(fields, ByteLength, k, 0).None?
    ensures forall j :: 0 <= j < |fields| && CountsBy(fields[j], k) ==>
              fields[k].kind.constant.None? && !fields[k].kind.boolean && Plain(fields[k])
              && FirstWith(fields, ItemCount, k, 0) == Some(j)
              && FirstWith(fields, Presence, k, 0).None? && FirstWith(fields, ByteLength, k, 0).None?
  {
    hide Representable, ValidPlacement, ValidCondition;
    var counted, flag, length := FirstWith(fields, ItemCount, k, 0), FirstWith(fields, Presence, k, 0), FirstWith(fields, ByteLength, k, 0);
    assert ValidField(fields, counted.GetOr(k)) && ValidField(fields, flag.GetOr(k)) && ValidField(fields, length.GetOr(k));
    forall j | 0 <= j < |fields| && fields[j].kind == BoundedKind(k)
      ensures ValidField(fields, j) && HasRole(fields[j], ByteLength, k) && GovernedBy(fields[j], k)
    {
    }
    forall j | 0 <= j < |fields| && fields[j].kind == FlagKind(k)
      ensures ValidField(fields, j) && HasRole(fields[j], Presence, k) && GovernedBy(fields[j], k)
    {
    }
    forall j | 0 <= j < |fields| && CountsBy(fields[j], k)
      ensures ValidField(fields, j) && HasRole(fields[j], ItemCount, k)
    {
    }
  }

  /** A build whose derived values exist has consistent values. */
  lemma BuildableConsistent(fields: seq<Field>, build: seq<Built>)
    requires ValidSchema(fields) && CompleteBuild(fields, build) && Buildable(fields, build)
    ensures AllConsistent(fields, Values(fields, build))
  {
    hide Consistent, ValidSchema, BuiltFits, Buildable;
    forall k | 0 <= k < |fields| ensures Consistent(fields, Values(fields, build), k) {
      FieldConsistent(fields, build, k);
    }
  }

  lemma FieldConsistent(fields: seq<Field>, build: seq<Built>, k: nat)
    requires ValidSchema(fields) && CompleteBuild(fields, build) && Buildable(fields, build) && k < |fields|
    ensures Consistent(fields, Values(fields, build), k)
  {
    hide Representable, OwnCounts, OwnRoles, Emitted, ValidSources, Derivable;
    assert ValidField(fields, k) && BuiltFits(fields, build, k) && Derivable(fields, build, k);
    match fields[k].kind
    case ScalarKind(_, _, _) => ScalarConsistent(fields, build, k);
    case FixedKind(_, _) =>
    case BoundedKind(c) =>
      assert Derivable(fields, build, c) && BuiltFits(fields, build, c);
      LengthOf(fields, build, k, c);
    case RestKind =>
    case ArrayKind(item, c) =>
      assert BuiltFits(fields, build, c);
      RolesOf(fields, c);
      ArrayItems(fields, build, k);
    case FlagKind(c) =>
      assert BuiltFits(fields, build, c);
      RolesOf(fields, c);
  }

  lemma LengthOf(fields: seq<Field>, build: seq<Built>, k: nat, c: nat)
    requires ValidSchema(fields) && |build| == |fields| && k < |fields| && fields[k].kind == BoundedKind(c) && c < k
    requires fields[c].kind.ScalarKind? && Derivable(fields, build, c) && BuiltFits(fields, build, c)
    ensures ValueOf(fields, build, c) == Int(|BytesOf(fields, build, k)|)
  {
    hide Representable;
    RolesOf(fields, c);
    assert SharesLength(fields, build, c, k, |BytesOf(fields, build, FirstWith(fields, ByteLength, c, 0).value)|);
  }

  lemma ArrayItems(fields: seq<Field>, build: seq<Built>, k: nat)
    requires |build| == |fields| && k < |fields| && fields[k].kind.ArrayKind?
    requires BuiltFits(fields, build, k) && Derivable(fields, build, k)
    ensures var value := ValueOf(fields, build, k);
            && value.Counted? && value.count == |build[k].sources|
            && Emitted(fields[k].kind.item, value.span, BytesOfSources(build[k].sources), value.count)
  {
    hide ValidSource;
    SourcesGood(fields[k].kind.item, build[k].sources);
  }

  lemma ScalarConsistent(fields: seq<Field>, build: seq<Built>, k: nat)
    requires ValidSchema(fields) && CompleteBuild(fields, build) && Buildable(fields, build)
    requires k < |fields| && fields[k].kind.ScalarKind?
    ensures Consistent(fields, Values(fields, build), k)
  {
    hide OwnCounts, OwnRoles, Emitted, ValidSources;
    assert ValidField(fields, k) && BuiltFits(fields, build, k) && Derivable(fields, build, k);
    RolesOf(fields, k);
    if fields[k].condition.Some? {
      var f := fields[k].condition.value;
      assert BuiltFits(fields, build, f);
    } else {
      ScalarDerived(fields, build, k);
    }
  }

  /** The value of an unconditional scalar fits its type. */
  lemma ScalarDerived(fields: seq<Field>, build: seq<Built>, k: nat)
    requires ValidSchema(fields) && CompleteBuild(fields, build) && Buildable(fields, build)
    requires k < |fields| && fields[k].kind.ScalarKind? && fields[k].condition.None?
    ensures var ScalarKind(scalar, boolean, constant) := fields[k].kind;
            var value := ValueOf(fields, build, k);
            && value.Int? && Representable(scalar, value.v) && (boolean ==> 0 <= value.v <= 1)
            && (constant.Some? ==> value.v == constant.value)
  {
    hide OwnCounts, OwnRoles, ValidSources;
    assert ValidField(fields, k) && BuiltFits(fields, build, k) && Derivable(fields, build, k);
    RolesOf(fields, k);
    var counted, flag := FirstWith(fields, ItemCount, k, 0), FirstWith(fields, Presence, k, 0);
    if counted.Some? {
      assert Derivable(fields, build, counted.value);
    } else if flag.Some? {
      BitRepresentable(fields[k].kind.scalar);
    }
  }

  lemma ZeroRepresentable(scalar: Scalar)
    ensures Representable(scalar, 0)
  {
  }

  lemma BitRepresentable(scalar: Scalar)
    requires !scalar.signed && scalar.width > 0
    ensures Representable(scalar, 0) && Representable(scalar, 1)
  {
    assert Pow256(scalar.width) == 256 * Pow256(scalar.width - 1);
  }

  // ----- values while writing -----

  /** The value emitted so far: a count is zero until its array, field `k` or later, is
      written. */
  function CurrentAt(fields: seq<Field>, build: seq<Built>, k: nat, j: nat): Value
    requires j < |fields| == |build|
  {
    if fields[j].kind.ScalarKind? && FirstWith(fields, ItemCount, j, 0).Some? && FirstWith(fields, ItemCount, j, 0).value >= k
    then Int(0) else ValueOf(fields, build, j)
  }

  function Current(fields: seq<Field>, build: seq<Built>, k: nat): (values: seq<Value>)
    requires |fields| == |build|
    ensures |values| == |fields| && forall j :: 0 <= j < |fields| ==> values[j] == CurrentAt(fields, build, k, j)
  {
    seq(|fields|, j requires 0 <= j < |fields| => CurrentAt(fields, build, k, j))
  }

  lemma CurrentNext(fields: seq<Field>, build: seq<Built>, k: nat)
    requires k < |fields| == |build| && !fields[k].kind.ArrayKind?
    ensures Current(fields, build, k + 1) == Current(fields, build, k)
  {
    hide ValueOf;
    var a, b := Current(fields, build, k + 1), Current(fields, build, k);
    forall j | 0 <= j < |fields| ensures a[j] == b[j] {
      assert FirstWith(fields, ItemCount, j, 0) != Some(k);
    }
  }

  lemma CurrentCounted(fields: seq<Field>, build: seq<Built>, k: nat)
    requires ValidSchema(fields) && CompleteBuild(fields, build) && k < |fields| && fields[k].kind.ArrayKind?
    ensures var c := fields[k].kind.count;
            && c < k && fields[c].kind.ScalarKind? && FirstWith(fields, ItemCount, c, 0) == Some(k)
            && Current(fields, build, k)[c] == Int(0)
            && Current(fields, build, k + 1) == Current(fields, build, k)[c := Int(|SourcesOf(build, k)|)]
  {
    hide Representable, ValidSources, OwnCounts, OwnRoles, ValidKind, ValidCondition, Values, BytesOf;
    var c := fields[k].kind.count;
    CountBuilt(fields, build, k);
    hide ValidSchema, CompleteBuild, ValueOf;
    var a, b := Current(fields, build, k + 1), Current(fields, build, k);
    forall j | 0 <= j < |fields| && j != c ensures a[j] == b[j] {
      assert FirstWith(fields, ItemCount, j, 0) == Some(k) ==> HasRole(fields[k], ItemCount, j);
    }
    assert a[c] == ValueOf(fields, build, c);
  }

  /** The count of array `k` is derived from its sources. */
  lemma CountBuilt(fields: seq<Field>, build: seq<Built>, k: nat)
    requires ValidSchema(fields) && CompleteBuild(fields, build) && k < |fields| && fields[k].kind.ArrayKind?
    ensures var c := fields[k].kind.count;
            && c < k && fields[c].kind.ScalarKind? && FirstWith(fields, ItemCount, c, 0) == Some(k)
            && ValueOf(fields, build, c) == Int(|SourcesOf(build, k)|)
  {
    hide Representable, ValidSources;
    var c := fields[k].kind.count;
    assert ValidField(fields, k) && BuiltFits(fields, build, c);
    RolesOf(fields, c);
  }

  lemma CurrentAll(fields: seq<Field>, build: seq<Built>)
    requires |build| == |fields|
    ensures Current(fields, build, |fields|) == Values(fields, build)
  {
    hide ValueOf;
  }

  /** The layout of the values so far is as long as that of the final values. */
  lemma CurrentExtent(fields: seq<Field>, build: seq<Built>, k: nat, n: nat)
    requires ValidSchema(fields) && CompleteBuild(fields, build) && Buildable(fields, build) && n <= |fields|
    ensures SameExtent(Emit(fields, Current(fields, build, k), n), Emit(fields, Values(fields, build), n))
  {
    hide Emit, Representable, ValidSources, Derivable;
    var a, b := Current(fields, build, k), Values(fields, build);
    forall j | 0 <= j < |fields| ensures Alike(fields, a, b, j) {
      CurrentAlike(fields, build, k, j);
    }
    hide ValidSchema;
    EmitAlike(fields, a, b, n);
  }

  lemma CurrentAlike(fields: seq<Field>, build: seq<Built>, k: nat, j: nat)
    requires ValidSchema(fields) && CompleteBuild(fields, build) && Buildable(fields, build) && j < |fields|
    ensures Alike(fields, Current(fields, build, k), Values(fields, build), j)
  {
    hide Representable, ValidSources, ValueOf;
    var counted := FirstWith(fields, ItemCount, j, 0);
    if fields[j].kind.ScalarKind? && counted.Some? && counted.value >= k {
      assert CountsBy(fields[counted.value], j);
      RolesOf(fields, j);
      ScalarDerived(fields, build, j);
      ZeroRepresentable(fields[j].kind.scalar);
    }
  }

  // ----- a region of a child writer -----

  ghost predicate Open(child: ChildWriter, start: nat)
    reads child, child.writer, child.writer.output
  {
    Ready(child) && child.start <= start <= child.cursor
  }

  /** What the schema has emitted so far. */
  ghost function Region(child: ChildWriter, start: nat): (region: seq<byte>)
    requires Open(child, start)
    reads child, child.writer, child.writer.output
    ensures |region| == child.cursor - start
  {
    child.Rep()[start..child.cursor]
  }

  /** A step that is to make the region `target`, when there is one: it succeeds exactly
      when an obliging output has the room. */
  ghost predicate Reaches(child: ChildWriter, start: nat, ok: bool, target: Option<seq<byte>>)
    reads child, child.writer, child.writer.output
  {
    && (ok ==> Open(child, start) && target == Some(Region(child, start)))
    && (child.writer.output.policy.Obliging() ==>
          (ok <==> target.Some? && Room(child, start + |target.value|)))
  }

  lemma RegionAppend(before: seq<byte>, after: seq<byte>, start: nat, cursor: nat, patch: seq<byte>)
    requires start <= cursor <= |before| && Overlaid(before, after, cursor, patch)
    ensures after[start..cursor + |patch|] == before[start..cursor] + patch && |after| == Max(|before|, cursor + |patch|)
  {
    assert after[cursor..cursor + |patch|] == patch;
    assert after[start..cursor] == before[start..cursor];
    assert after[start..cursor + |patch|] == after[start..cursor] + after[cursor..cursor + |patch|];
  }

  method Put(child: ChildWriter, start: nat, bytes: seq<byte>) returns (r: Result<Unit, BuildError>)
    requires Open(child, start)
    modifies child, child.writer, child.writer.output
    ensures Reaches(child, start, r.Ok?, Some(old(Region(child, start)) + bytes)) && child.writer.SameCapacity()
  {
    hide Overlaid;
    ghost var before, cursor := child.Rep(), child.cursor;
    var written := child.Write(bytes);
    if written.Err? {
      return Err(WriteFailed(written.error));
    }
    RegionAppend(before, child.Rep(), start, cursor, bytes);
    r := Ok(Unit);
  }

  method Fill(child: ChildWriter, start: nat, position: nat) returns (r: Result<Unit, BuildError>)
    requires Open(child, start) && position <= USIZE_MAX
    modifies child, child.writer, child.writer.output
    ensures Reaches(child, start, r.Ok?,
                    if position < old(child.cursor) then None
                    else Some(old(Region(child, start)) + Zeros(position - old(child.cursor))))
    ensures child.writer.SameCapacity()
  {
    hide Overlaid;
    ghost var before, cursor := child.Rep(), child.cursor;
    var written := child.FillTo(position);
    if written.Err? {
      return Err(WriteFailed(written.error));
    }
    RegionAppend(before, child.Rep(), start, cursor, Zeros(position - cursor));
    r := Ok(Unit);
  }

  /** Rewrites bytes of the region, counted from the schema start. */
  method Rewrite(child: ChildWriter, start: nat, offset: nat, bytes: seq<byte>) returns (r: Result<Unit, BuildError>)
    requires Open(child, start) && start + offset + |bytes| <= child.cursor
    modifies child.writer, child.writer.output
    ensures Reaches(child, start, r.Ok?, Some(Poked(old(Region(child, start)), offset, bytes))) && child.writer.SameCapacity()
  {
    ghost var before := child.Rep();
    var written := child.PatchAt(start + offset, bytes);
    if written.Err? {
      return Err(WriteFailed(written.error));
    }
    RegionPoked(before, start, child.cursor, offset, bytes);
    r := Ok(Unit);
  }

  lemma RegionPoked(before: seq<byte>, start: nat, cursor: nat, offset: nat, bytes: seq<byte>)
    requires start + offset + |bytes| <= cursor <= |before|
    ensures Overlay(before, start + offset, bytes)[start..cursor] == Poked(before[start..cursor], offset, bytes)
    ensures |Overlay(before, start + offset, bytes)| == |before|
  {
  }

  /** Emits the items of a deferred source after what the region holds. */
  method PutItems(child: ChildWriter, start: nat, sources: seq<ItemSource>) returns (r: Result<nat, BuildError>)
    requires Open(child, start) && forall i :: 0 <= i < |sources| ==> Writes(sources[i].steps, sources[i].bytes)
    modifies child, child.writer, child.writer.output
    ensures r.Ok? ==> r.value == |sources|
    ensures Reaches(child, start, r.Ok?,
                    if NonEmpty(sources) then Some(old(Region(child, start)) + Concat(BytesOfSources(sources))) else None)
    ensures child.writer.SameCapacity()
  {
    hide Writes, Overlay, Concat;
    ghost var before, cursor := child.Rep(), child.cursor;
    var count := WriteSource(sources, child);
    if count.Err? {
      return Err(WriteFailed(count.error));
    }
    OverlayRegion(before, start, cursor, Concat(BytesOfSources(sources)));
    r := Ok(count.value);
  }

  lemma OverlayRegion(before: seq<byte>, start: nat, cursor: nat, patch: seq<byte>)
    requires start <= cursor <= |before|
    ensures cursor + |patch| <= |Overlay(before, cursor, patch)|
    ensures Overlay(before, cursor, patch)[start..cursor + |patch|] == before[start..cursor] + patch
  {
    OverlaidIsOverlay(before, Overlay(before, cursor, patch), cursor, patch);
    RegionAppend(before, Overlay(before, cursor, patch), start, cursor, patch);
  }

  /** A failed part fails the whole it is part of. */
  lemma PartFails(child: ChildWriter, start: nat, part: Option<seq<byte>>, whole: Option<seq<byte>>)
    requires Reaches(child, start, false, part)
    requires whole.Some? ==> part.Some? && |part.value| <= |whole.value|
    ensures Reaches(child, start, false, whole)
  {
  }

  /** Without a target a step fails. */
  lemma NoTarget(child: ChildWriter, start: nat)
    ensures Reaches(child, start, false, None)
  {
  }

  lemma Reached(child: ChildWriter, start: nat, target: Option<seq<byte>>)
    requires Reaches(child, start, true, target)
    ensures Open(child, start) && target == Some(Region(child, start))
  {
  }

  // ----- what holds before every field -----

  /** The offset retained for count controller `c`. */
  ghost predicate OffsetKept(fields: seq<Field>, build: seq<Built>, k: nat, offsets: map<nat, nat>, c: nat)
    requires c <= |fields| == |build|
  {
    FirstWith(fields, ItemCount, c, 0).Some? ==>
      && c in offsets && Emit(fields, Current(fields, build, k), c).Some?
      && offsets[c] == |Emit(fields, Current(fields, build, k), c).value|
  }

  /** The region holds the first `k` fields with their values so far. */
  ghost predicate Progress(fields: seq<Field>, build: seq<Built>, k: nat, offsets: map<nat, nat>, region: seq<byte>) {
    && ValidSchema(fields) && CompleteBuild(fields, build) && k <= |fields|
    && Emit(fields, Current(fields, build, k), k) == Some(region)
    && (forall j :: 0 <= j < k ==> Derivable(fields, build, j))
    && (forall c :: 0 <= c < k ==> OffsetKept(fields, build, k, offsets, c))
  }

  /** What the region becomes with field `k`, if its derived values exist. */
  ghost function Target(fields: seq<Field>, build: seq<Built>, k: nat): Option<seq<byte>>
    requires k < |fields| == |build|
  {
    if Derivable(fields, build, k) then Emit(fields, Current(fields, build, k + 1), k + 1) else None
  }

  /** The region with the gap before a field filled. */
  ghost function Located(field: Field, values: seq<Value>, region: seq<byte>): Option<seq<byte>> {
    match Place(field, values, |region|)
    case None => None
    case Some(start) => if start < |region| then None else Some(region + Zeros(start - |region|))
  }

  lemma EmitLocated(field: Field, values: seq<Value>, value: Value, region: seq<byte>)
    ensures EmitField(field, values, value, region) ==
              if Located(field, values, region).None? then None
              else Some(Located(field, values, region).value + Stored(field, value))
  {
  }

  /** A field that is no array adds its value at its place. */
  lemma TargetIs(fields: seq<Field>, build: seq<Built>, k: nat, offsets: map<nat, nat>, region: seq<byte>)
    requires Progress(fields, build, k, offsets, region) && k < |fields| && !fields[k].kind.ArrayKind?
    requires Derivable(fields, build, k)
    ensures var values := Current(fields, build, k);
            var located := Located(fields[k], values, region);
            Target(fields, build, k) ==
              if located.None? then None else Some(located.value + Stored(fields[k], values[k]))
  {
    hide Emit, Located, Stored, EmitField, ValidSchema, BuiltFits, Derivable, OffsetKept;
    CurrentNext(fields, build, k);
    EmitNext(fields, Current(fields, build, k), k);
    EmitLocated(fields[k], Current(fields, build, k), Current(fields, build, k)[k], region);
  }

  /** A field that is no array keeps the progress. */
  lemma FieldDone(fields: seq<Field>, build: seq<Built>, k: nat, offsets: map<nat, nat>, region: seq<byte>,
                  more: map<nat, nat>, next: seq<byte>)
    requires Progress(fields, build, k, offsets, region) && k < |fields| && !fields[k].kind.ArrayKind?
    requires Target(fields, build, k) == Some(next)
    requires more == offsets || more == offsets[k := |region|]
    requires FirstWith(fields, ItemCount, k, 0).Some? ==> more == offsets[k := |region|]
    ensures Progress(fields, build, k + 1, more, next)
  {
    hide Emit, ValidSchema, BuiltFits, Derivable;
    CurrentNext(fields, build, k);
    var after := k + 1;
    forall c | 0 <= c < after ensures OffsetKept(fields, build, after, more, c) {
      if c < k {
        assert OffsetKept(fields, build, k, offsets, c);
      }
    }
  }

  // ----- geometry -----

  /** Whether any field declares padding, alignment or a position. */
  predicate ExplicitGeometry(fields: seq<Field>, j: nat)
    requires j <= |fields|
    ensures !ExplicitGeometry(fields, j) ==> forall k :: j <= k < |fields| ==> fields[k].placement == Follow(0, None)
    decreases |fields| - j
  {
    j < |fields| && (fields[j].placement != Follow(0, None) || ExplicitGeometry(fields, j + 1))
  }

  lemma LocatedHere(field: Field, values: seq<Value>, region: seq<byte>)
    requires field.placement == Follow(0, None) || Suppressed(field, values)
    ensures Located(field, values, region) == Some(region)
  {
    assert region + Zeros(0) == region;
  }

  /** A position controller is a value the caller gave. */
  lemma PositionGiven(fields: seq<Field>, build: seq<Built>, k: nat)
    requires ValidSchema(fields) && CompleteBuild(fields, build) && k < |fields| && fields[k].placement.AtField?
    ensures var c := fields[k].placement.controller;
            && c < k && build[c].Given? && build[c].value.Int? && build[c].value.v >= 0
            && Current(fields, build, k)[c] == build[c].value
  {
    hide OwnCounts, ValidSources;
    var c := fields[k].placement.controller;
    assert ValidField(fields, k) && Controller(fields, k, c, true) && BuiltFits(fields, build, c);
    var length, counted, flag :=
      FirstWith(fields, ByteLength, c, 0), FirstWith(fields, ItemCount, c, 0), FirstWith(fields, Presence, c, 0);
    assert ValidField(fields, length.GetOr(k)) && ValidField(fields, flag.GetOr(k));
    CountsGovernNothing(fields, k, c);
    assert GovernedBy(fields[k], c);
  }

  /** The position the writer moves to, from the builder's own values. */
  function Relative(field: Field, build: seq<Built>, cursor: nat): Option<nat> {
    match field.placement
    case At(position) => Some(position)
    case AtField(c) =>
      if c < |build| && build[c].Given? && build[c].value.Int? && 0 <= build[c].value.v then Some(build[c].value.v) else None
    case Follow(pad, None) => Some(cursor + pad)
    case Follow(pad, Some(align)) => Aligned(cursor + pad, align)
  }

  lemma RelativeIsPlace(fields: seq<Field>, build: seq<Built>, k: nat, cursor: nat)
    requires ValidSchema(fields) && CompleteBuild(fields, build) && k < |fields| && fields[k].condition.None?
    ensures Place(fields[k], Current(fields, build, k), cursor) == Relative(fields[k], build, cursor)
  {
    hide ValidSchema, BuiltFits;
    if fields[k].placement.AtField? {
      PositionGiven(fields, build, k);
    }
  }

  lemma LocatedAt(field: Field, values: seq<Value>, region: seq<byte>, relative: Option<nat>)
    requires Place(field, values, |region|) == relative
    ensures Located(field, values, region) ==
              if relative.None? || relative.value < |region| then None else Some(region + Zeros(relative.value - |region|))
    ensures Located(field, values, region).Some? ==> |Located(field, values, region).value| == relative.value
  {
  }

  /** A filled gap ends where the format puts the field; without one the field has no start
      at or after the cursor. */
  lemma LocatedStarts(field: Field, values: seq<Value>, region: seq<byte>, start: nat)
    requires PositionKnown(field, values) && start >= |region|
    ensures StartsAt(field, values, |region|, start) <==>
              Located(field, values, region) == Some(region + Zeros(start - |region|))
  {
    hide Place, StartsAt;
    PlaceIs(field, values, |region|, start);
    if Located(field, values, region) == Some(region + Zeros(start - |region|)) {
      assert |region + Zeros(start - |region|)| == start;
    }
  }

  lemma LocatedIs(field: Field, values: seq<Value>, region: seq<byte>, next: seq<byte>)
    requires PositionKnown(field, values) && Located(field, values, region) == Some(next)
    ensures |next| >= |region| && StartsAt(field, values, |region|, |next|)
  {
    LocatedStarts(field, values, region, |next|);
  }

  lemma PositionBuilt(fields: seq<Field>, build: seq<Built>, k: nat)
    requires ValidSchema(fields) && CompleteBuild(fields, build) && k < |fields|
    ensures PositionKnown(fields[k], Current(fields, build, k))
  {
    hide ValidSchema, BuiltFits;
    if fields[k].placement.AtField? {
      PositionGiven(fields, build, k);
    }
  }

  /** Moves to the start of field `k`. */
  method Locate(fields: seq<Field>, build: seq<Built>, k: nat, child: ChildWriter, start: nat, explicit: bool)
    returns (r: Result<Unit, BuildError>)
    requires ValidSchema(fields) && CompleteBuild(fields, build) && k < |fields| && explicit == ExplicitGeometry(fields, 0)
    requires fields[k].condition.None? && Open(child, start)
    modifies child, child.writer, child.writer.output
    ensures Reaches(child, start, r.Ok?, Located(fields[k], Current(fields, build, k), old(Region(child, start))))
    ensures r.Ok? ==>
              && Open(child, start)
              && StartsAt(fields[k], Current(fields, build, k), old(child.cursor) - start, child.cursor - start)
    ensures child.writer.SameCapacity()
  {
    hide ValidSchema, BuiltFits, Region, Located, Place, Current, Relative, Zeros, StartsAt, PositionKnown;
    ghost var values, region := Current(fields, build, k), Region(child, start);
    PositionBuilt(fields, build, k);
    if !explicit {
      LocatedHere(fields[k], values, region);
      LocatedIs(fields[k], values, region, region);
      return Ok(Unit);
    }
    RelativeIsPlace(fields, build, k, child.cursor - start);
    var relative := Relative(fields[k], build, child.cursor - start);
    LocatedAt(fields[k], values, region, relative);
    if relative.None? || start + relative.value > USIZE_MAX {
      return Err(LayoutFailed(k));
    }
    r := Fill(child, start, start + relative.value);
    if r.Ok? {
      LocatedIs(fields[k], values, region, Region(child, start));
    }
  }

  // ----- one field -----

  /** The lengths of payloads that share a controller must be the same. */
  method SharedLength(fields: seq<Field>, build: seq<Built>, k: nat, first: nat) returns (r: Result<nat, BuildError>)
    requires |build| == |fields| && k < |fields| && FirstWith(fields, ByteLength, k, 0) == Some(first)
    ensures r.Ok? <==> forall j :: 0 <= j < |fields| ==> SharesLength(fields, build, k, j, |BytesOf(fields, build, first)|)
    ensures r.Ok? ==> r.value == |BytesOf(fields, build, first)|
    ensures r.Err? ==> exists j :: first < j < |fields| && fields[j].kind == BoundedKind(k)
                        && r == Err(LengthConflict(k, |BytesOf(fields, build, first)|, |BytesOf(fields, build, j)|))
                        && |BytesOf(fields, build, first)| != |BytesOf(fields, build, j)|
  {
    hide BytesOf;
    var expected := |BytesOf(fields, build, first)|;
    for j := first + 1 to |fields|
      invariant forall i :: first < i < j ==> SharesLength(fields, build, k, i, expected)
    {
      var actual := |BytesOf(fields, build, j)|;
      if fields[j].kind == BoundedKind(k) && actual != expected {
        assert !SharesLength(fields, build, k, j, expected);
        return Err(LengthConflict(k, expected, actual));
      }
    }
    forall j | 0 <= j < |fields| ensures SharesLength(fields, build, k, j, expected) {
      assert fields[j].kind == BoundedKind(k) ==> HasRole(fields[j], ByteLength, k);
    }
    r := Ok(expected);
  }

  /** The value a scalar stores before any patch. */
  method Source(fields: seq<Field>, build: seq<Built>, k: nat) returns (r: Result<int, BuildError>)
    requires ValidSchema(fields) && CompleteBuild(fields, build) && k < |fields|
    requires fields[k].kind.ScalarKind? && fields[k].condition.None?
    ensures r.Ok? <==> Derivable(fields, build, k)
    ensures r.Ok? ==> Current(fields, build, k)[k] == Int(r.value) && Representable(fields[k].kind.scalar, r.value)
  {
    hide OwnCounts, OwnRoles, BytesOf, ValidSources;
    assert ValidField(fields, k) && BuiltFits(fields, build, k);
    RolesOf(fields, k);
    var counted, flag, first :=
      FirstWith(fields, ItemCount, k, 0), FirstWith(fields, Presence, k, 0), FirstWith(fields, ByteLength, k, 0);
    assert ValidField(fields, counted.GetOr(k));
    if fields[k].kind.constant.Some? {
      return Ok(fields[k].kind.constant.value);
    }
    if counted.Some? {
      ZeroRepresentable(fields[k].kind.scalar);
      return Ok(0);
    }
    if flag.Some? {
      BitRepresentable(fields[k].kind.scalar);
      return Ok(if build[flag.value] == Given(Present(true)) then 1 else 0);
    }
    if first.Some? {
      var expected :- SharedLength(fields, build, k, first.value);
      if !Representable(fields[k].kind.scalar, expected) {
        return Err(LayoutFailed(k));
      }
      return Ok(expected);
    }
    r := Ok(build[k].value.v);
  }

  /** After a field: the region reaches its target, and then the progress goes on. */
  ghost predicate FieldWritten(fields: seq<Field>, build: seq<Built>, k: nat, child: ChildWriter, start: nat,
                               r: Result<map<nat, nat>, BuildError>)
    requires k < |fields| == |build|
    reads child, child.writer, child.writer.output
  {
    && Reaches(child, start, r.Ok?, Target(fields, build, k))
    && (r.Ok? ==> Progress(fields, build, k + 1, r.value, Region(child, start)))
  }

  /** Stored bytes of the values a builder gives. */
  lemma StoredIs(field: Field, bytes: seq<byte>)
    ensures Stored(field, Bytes(bytes)) == bytes
    ensures forall n: nat :: Stored(field, Counted(bytes, n)) == bytes
    ensures forall p :: Stored(field, Present(p)) == []
    ensures Stored(field, Absent) == []
  {
  }

  lemma StoredInt(field: Field, v: int)
    requires field.kind.ScalarKind? && Representable(field.kind.scalar, v)
    ensures Stored(field, Int(v)) == EncodeScalar(field.kind.scalar, v)
  {
  }

  lemma CountPlain(fields: seq<Field>, c: nat)
    requires ValidSchema(fields) && c < |fields| && FirstWith(fields, ItemCount, c, 0).Some?
    ensures fields[c].kind.ScalarKind? && Plain(fields[c])
  {
    assert ValidField(fields, FirstWith(fields, ItemCount, c, 0).value);
  }

  method WriteScalar(fields: seq<Field>, build: seq<Built>, k: nat, child: ChildWriter, start: nat, explicit: bool,
                     offsets: map<nat, nat>)
    returns (r: Result<map<nat, nat>, BuildError>)
    requires Open(child, start) && Progress(fields, build, k, offsets, Region(child, start)) && k < |fields|
    requires fields[k].kind.ScalarKind? && fields[k].condition.None? && explicit == ExplicitGeometry(fields, 0)
    modifies child, child.writer, child.writer.output
    ensures FieldWritten(fields, build, k, child, start, r) && child.writer.SameCapacity()
  {
    hide Open, Region, Reaches, Located, ValidSchema, BuiltFits, Derivable, Emit, Current, Stored, EncodeScalar, Representable;
    ghost var region, values := Region(child, start), Current(fields, build, k);
    var source := Source(fields, build, k);
    if source.Err? {
      NoTarget(child, start);
      return Err(source.error);
    }
    var v := source.value;
    TargetIs(fields, build, k, offsets, region);
    StoredInt(fields[k], v);
    var placed := Locate(fields, build, k, child, start, explicit);
    if placed.Err? {
      PartFails(child, start, Located(fields[k], values, region), Target(fields, build, k));
      return Err(placed.error);
    }
    Reached(child, start, Located(fields[k], values, region));
    var more := offsets;
    if FirstWith(fields, ItemCount, k, 0).Some? {
      CountPlain(fields, k);
      LocatedHere(fields[k], values, region);
      more := offsets[k := child.cursor - start];
    }
    var written := Put(child, start, EncodeScalar(fields[k].kind.scalar, v));
    if written.Err? {
      return Err(written.error);
    }
    Reached(child, start, Target(fields, build, k));
    FieldDone(fields, build, k, offsets, region, more, Region(child, start));
    r := Ok(more);
  }

  /** Fields other than unconditional scalars keep no offset. */
  lemma NoCount(fields: seq<Field>, k: nat)
    requires ValidSchema(fields) && k < |fields| && !(fields[k].kind.ScalarKind? && Plain(fields[k]))
    ensures FirstWith(fields, ItemCount, k, 0).None?
  {
    assert ValidField(fields, FirstWith(fields, ItemCount, k, 0).GetOr(k));
  }

  lemma ConditionalIs(fields: seq<Field>, build: seq<Built>, k: nat, region: seq<byte>)
    requires ValidSchema(fields) && CompleteBuild(fields, build) && k < |fields| && fields[k].condition.Some?
    ensures var value := Current(fields, build, k)[k];
            && fields[k].condition.value < |build| && fields[k].kind.ScalarKind? && Derivable(fields, build, k)
            && build[k] == Given(value) && Located(fields[k], Current(fields, build, k), region) == Some(region)
            && (if build[fields[k].condition.value] == Given(Present(true))
                then value.Int? && Representable(fields[k].kind.scalar, value.v) else value == Absent)
  {
    hide Representable, OwnCounts, OwnRoles, ValidSources;
    var f := fields[k].condition.value;
    assert ValidField(fields, k) && BuiltFits(fields, build, k) && BuiltFits(fields, build, f);
    NoCount(fields, k);
    NoLength(fields, k);
    LocatedHere(fields[k], Current(fields, build, k), region);
  }

  lemma NoLength(fields: seq<Field>, k: nat)
    requires ValidSchema(fields) && k < |fields| && fields[k].kind.ScalarKind? && !Plain(fields[k])
    ensures FirstWith(fields, ByteLength, k, 0).None?
  {
    assert ValidField(fields, FirstWith(fields, ByteLength, k, 0).GetOr(k));
  }

  /** A choice writes its group in field order: each scalar when present, else nothing. */
  method WriteConditional(fields: seq<Field>, build: seq<Built>, k: nat, child: ChildWriter, start: nat, offsets: map<nat, nat>)
    returns (r: Result<map<nat, nat>, BuildError>)
    requires Open(child, start) && Progress(fields, build, k, offsets, Region(child, start)) && k < |fields|
    requires fields[k].condition.Some?
    modifies child, child.writer, child.writer.output
    ensures FieldWritten(fields, build, k, child, start, r) && child.writer.SameCapacity()
  {
    hide Open, Region, Reaches, Located, ValidSchema, BuiltFits, Derivable, Emit, Current, Stored, EncodeScalar, Representable;
    ghost var region, values := Region(child, start), Current(fields, build, k);
    ConditionalIs(fields, build, k, region);
    TargetIs(fields, build, k, offsets, region);
    NoCount(fields, k);
    StoredIs(fields[k], []);
    assert region + [] == region;
    if build[fields[k].condition.value] == Given(Present(true)) {
      StoredInt(fields[k], build[k].value.v);
      var written := Put(child, start, EncodeScalar(fields[k].kind.scalar, build[k].value.v));
      if written.Err? {
        return Err(written.error);
      }
    } else {
      AlreadyThere(child, start, Target(fields, build, k));
    }
    Reached(child, start, Target(fields, build, k));
    FieldDone(fields, build, k, offsets, region, offsets, Region(child, start));
    r := Ok(offsets);
  }

  /** An open region needs no more room than it has. */
  lemma AlreadyThere(child: ChildWriter, start: nat, target: Option<seq<byte>>)
    requires Open(child, start) && target == Some(Region(child, start))
    ensures Reaches(child, start, true, target)
  {
  }

  lemma BytesAre(fields: seq<Field>, build: seq<Built>, k: nat)
    requires ValidSchema(fields) && CompleteBuild(fields, build) && k < |fields|
    requires fields[k].kind.FixedKind? || fields[k].kind.BoundedKind? || fields[k].kind.RestKind?
    ensures Current(fields, build, k)[k] == Bytes(BytesOf(fields, build, k))
    ensures Derivable(fields, build, k) && fields[k].condition.None?
  {
    hide OwnCounts, OwnRoles;
    assert ValidField(fields, k) && BuiltFits(fields, build, k);
  }

  /** Bounded payloads were compared when their length was written. */
  lemma SameAsFirst(fields: seq<Field>, build: seq<Built>, k: nat, offsets: map<nat, nat>, region: seq<byte>)
    requires Progress(fields, build, k, offsets, region) && k < |fields| && fields[k].kind.BoundedKind?
    ensures var first := FirstWith(fields, ByteLength, fields[k].kind.length, 0);
            first.Some? && |BytesOf(fields, build, first.value)| == |BytesOf(fields, build, k)|
  {
    hide OwnCounts, OwnRoles, Emit, OffsetKept, Representable;
    var c := fields[k].kind.length;
    assert ValidField(fields, k) && Derivable(fields, build, c);
    assert HasRole(fields[k], ByteLength, c);
    var first := FirstWith(fields, ByteLength, c, 0);
    assert SharesLength(fields, build, c, k, |BytesOf(fields, build, first.value)|);
  }

  method WriteBytes(fields: seq<Field>, build: seq<Built>, k: nat, child: ChildWriter, start: nat, explicit: bool, offsets: map<nat, nat>)
    returns (r: Result<map<nat, nat>, BuildError>)
    requires Open(child, start) && Progress(fields, build, k, offsets, Region(child, start)) && k < |fields|
    requires fields[k].kind.FixedKind? || fields[k].kind.BoundedKind? || fields[k].kind.RestKind?
    requires explicit == ExplicitGeometry(fields, 0)
    modifies child, child.writer, child.writer.output
    ensures FieldWritten(fields, build, k, child, start, r) && child.writer.SameCapacity()
  {
    hide Open, Region, Reaches, Located, ValidSchema, BuiltFits, Derivable, Emit, Current, Stored, BytesOf;
    ghost var region, values := Region(child, start), Current(fields, build, k);
    BytesAre(fields, build, k);
    TargetIs(fields, build, k, offsets, region);
    NoCount(fields, k);
    var bytes := BytesOf(fields, build, k);
    StoredIs(fields[k], bytes);
    var placed := Locate(fields, build, k, child, start, explicit);
    if placed.Err? {
      PartFails(child, start, Located(fields[k], values, region), Target(fields, build, k));
      return Err(placed.error);
    }
    Reached(child, start, Located(fields[k], values, region));
    if fields[k].kind.BoundedKind? {
      SameAsFirst(fields, build, k, offsets, region);
      var c: nat := fields[k].kind.length;
      var first := FirstWith(fields, ByteLength, c, 0);
      var expected: nat, actual: nat := |BytesOf(fields, build, first.value)|, |bytes|;
      if actual != expected {
        return Err(LengthConflict(c, expected, actual));
      }
    }
    var written := Put(child, start, bytes);
    if written.Err? {
      return Err(written.error);
    }
    Reached(child, start, Target(fields, build, k));
    FieldDone(fields, build, k, offsets, region, offsets, Region(child, start));
    r := Ok(offsets);
  }

  /** A logical flag emits nothing. */
  method WriteFlag(fields: seq<Field>, build: seq<Built>, k: nat, ghost child: ChildWriter, ghost start: nat, offsets: map<nat, nat>)
    returns (r: Result<map<nat, nat>, BuildError>)
    requires Open(child, start) && Progress(fields, build, k, offsets, Region(child, start)) && k < |fields|
    requires fields[k].kind.FlagKind?
    ensures FieldWritten(fields, build, k, child, start, r)
  {
    hide Open, Region, Reaches, Located, ValidSchema, BuiltFits, Derivable, Emit, Current, Stored;
    ghost var region, values := Region(child, start), Current(fields, build, k);
    FlagIs(fields, build, k, region);
    TargetIs(fields, build, k, offsets, region);
    NoCount(fields, k);
    StoredIs(fields[k], []);
    assert region + [] == region;
    AlreadyThere(child, start, Target(fields, build, k));
    FieldDone(fields, build, k, offsets, region, offsets, region);
    r := Ok(offsets);
  }

  lemma FlagIs(fields: seq<Field>, build: seq<Built>, k: nat, region: seq<byte>)
    requires ValidSchema(fields) && CompleteBuild(fields, build) && k < |fields| && fields[k].kind.FlagKind?
    ensures Current(fields, build, k)[k].Present? && Derivable(fields, build, k)
    ensures Located(fields[k], Current(fields, build, k), region) == Some(region)
  {
    hide OwnCounts, OwnRoles;
    assert ValidField(fields, k) && BuiltFits(fields, build, k);
    LocatedHere(fields[k], Current(fields, build, k), region);
  }

  // ----- counted arrays -----

  /** What a written array needs of its schema, its build and its controller. */
  lemma ArrayFacts(fields: seq<Field>, build: seq<Built>, k: nat)
    requires ValidSchema(fields) && CompleteBuild(fields, build) && k < |fields| && fields[k].kind.ArrayKind?
    ensures var c := fields[k].kind.count; c < k && fields[c].kind.ScalarKind? && CountsBy(fields[k], c)
    ensures fields[k].condition.None? && build[k] == Streamed(SourcesOf(build, k))
    ensures ValidSources(fields[k].kind.item, SourcesOf(build, k))
    ensures Current(fields, build, k)[k] == Counted(Concat(BytesOfSources(SourcesOf(build, k))), |SourcesOf(build, k)|)
    ensures Derivable(fields, build, k) <==>
              NonEmpty(SourcesOf(build, k)) && Representable(fields[fields[k].kind.count].kind.scalar, |SourcesOf(build, k)|)
  {
    hide Representable, ValidSources, OwnCounts, OwnRoles;
    assert ValidField(fields, k) && BuiltFits(fields, build, k);
  }

  /** The region with the items, and the target that patching the count makes of it. */
  lemma ArrayTarget(fields: seq<Field>, build: seq<Built>, k: nat, offsets: map<nat, nat>, region: seq<byte>, located: seq<byte>)
    requires Progress(fields, build, k, offsets, region) && k < |fields| && fields[k].kind.ArrayKind?
    requires Located(fields[k], Current(fields, build, k), region) == Some(located)
    requires Derivable(fields, build, k)
    ensures var c := fields[k].kind.count;
            var written := located + Concat(BytesOfSources(SourcesOf(build, k)));
            && c < |fields| && fields[c].kind.ScalarKind? && Representable(fields[c].kind.scalar, |SourcesOf(build, k)|)
            && var patch := EncodeScalar(fields[c].kind.scalar, |SourcesOf(build, k)|);
            && c in offsets && offsets[c] + |patch| <= |written|
            && Target(fields, build, k) == Some(Poked(written, offsets[c], patch))
            && Progress(fields, build, k + 1, offsets, Poked(written, offsets[c], patch))
  {
    hide Located, EmitField, Stored, Emit, Representable, EncodeScalar, ValidSources, Place, OwnCounts, OwnRoles;
    var c, count := fields[k].kind.count, |SourcesOf(build, k)|;
    var values := Current(fields, build, k);
    var written := located + Concat(BytesOfSources(SourcesOf(build, k)));
    ArrayFacts(fields, build, k);
    CurrentCounted(fields, build, k);
    EmitNext(fields, values, k);
    EmitLocated(fields[k], values, values[k], region);
    StoredIs(fields[k], Concat(BytesOfSources(SourcesOf(build, k))));
    ZeroRepresentable(fields[c].kind.scalar);
    assert OffsetKept(fields, build, k, offsets, c);
    EmitCount(fields, values, c, count, k, k + 1);
    ArrayOffsets(fields, build, k, k + 1, offsets, region, written);
  }

  /** The offsets kept are those of the patched layout. */
  lemma ArrayOffsets(fields: seq<Field>, build: seq<Built>, k: nat, next: nat, offsets: map<nat, nat>, region: seq<byte>, written: seq<byte>)
    requires Progress(fields, build, k, offsets, region) && k < |fields| && fields[k].kind.ArrayKind? && next == k + 1
    requires Emit(fields, Current(fields, build, k), k + 1) == Some(written)
    requires var c := fields[k].kind.count; c < k && fields[c].kind.ScalarKind? && Representable(fields[c].kind.scalar, |SourcesOf(build, k)|)
    ensures forall d :: 0 <= d < next ==> OffsetKept(fields, build, next, offsets, d)
  {
    hide Emit, Representable, BuiltFits, ValidSchema, Derivable;
    var c, count := fields[k].kind.count, |SourcesOf(build, k)|;
    var values := Current(fields, build, k);
    CurrentCounted(fields, build, k);
    ZeroRepresentable(fields[c].kind.scalar);
    forall d | 0 <= d < next ensures OffsetKept(fields, build, next, offsets, d) {
      if d == k {
        NoCount(fields, k);
      } else {
        assert OffsetKept(fields, build, k, offsets, d);
        if d <= c {
          assert values[c := Int(count)][..d] == values[..d];
          EmitSame(fields, values, values[c := Int(count)], d);
        } else {
          EmitEarlier(fields, values, d, k + 1);
          EmitCount(fields, values, c, count, k, d);
        }
      }
    }
  }

  /** Emits the items, then patches the count reserved earlier. */
  method WriteArray(fields: seq<Field>, build: seq<Built>, k: nat, child: ChildWriter, start: nat, explicit: bool, offsets: map<nat, nat>)
    returns (r: Result<map<nat, nat>, BuildError>)
    requires Open(child, start) && Progress(fields, build, k, offsets, Region(child, start)) && k < |fields|
    requires fields[k].kind.ArrayKind? && explicit == ExplicitGeometry(fields, 0)
    modifies child, child.writer, child.writer.output
    ensures FieldWritten(fields, build, k, child, start, r) && child.writer.SameCapacity()
  {
    hide Open, Region, Reaches, Located, ValidSchema, BuiltFits, Derivable, Emit, Current, Poked, EncodeScalar, Representable, Concat, OffsetKept;
    ghost var region, values := Region(child, start), Current(fields, build, k);
    ArrayFacts(fields, build, k);
    var sources, c := SourcesOf(build, k), fields[k].kind.count;
    ghost var located := Located(fields[k], values, region);
    ArrayWhole(fields, build, k, offsets, region);
    var placed := Locate(fields, build, k, child, start, explicit);
    if placed.Err? {
      PartFails(child, start, located, Target(fields, build, k));
      return Err(placed.error);
    }
    Reached(child, start, located);
    if Derivable(fields, build, k) {
      ArrayTarget(fields, build, k, offsets, region, located.value);
    }
    WritesAll(fields[k].kind.item, sources);
    ghost var written := located.value + Concat(BytesOfSources(sources));
    var emitted := PutItems(child, start, sources);
    if emitted.Err? {
      PartFails(child, start, if NonEmpty(sources) then Some(written) else None, Target(fields, build, k));
      return Err(emitted.error);
    }
    Reached(child, start, if NonEmpty(sources) then Some(written) else None);
    var count := emitted.value;
    if !Representable(fields[c].kind.scalar, count) {
      NoTarget(child, start);
      return Err(LayoutFailed(c));
    }
    var patched := Rewrite(child, start, offsets[c], EncodeScalar(fields[c].kind.scalar, count));
    if patched.Err? {
      return Err(patched.error);
    }
    Reached(child, start, Target(fields, build, k));
    r := Ok(offsets);
  }

  lemma WritesAll(item: Item, sources: seq<ItemSource>)
    requires ValidSources(item, sources)
    ensures forall i :: 0 <= i < |sources| ==> Writes(sources[i].steps, sources[i].bytes)
  {
    hide Writes, GoodItem;
    forall i | 0 <= i < |sources| ensures Writes(sources[i].steps, sources[i].bytes) {
      assert ValidSource(item, sources[i]);
    }
  }

  /** The target of an array is at least as long as the filled gap. */
  lemma ArrayWhole(fields: seq<Field>, build: seq<Built>, k: nat, offsets: map<nat, nat>, region: seq<byte>)
    requires Progress(fields, build, k, offsets, region) && k < |fields| && fields[k].kind.ArrayKind?
    ensures var located := Located(fields[k], Current(fields, build, k), region);
            Target(fields, build, k).Some? ==> located.Some? && |located.value| <= |Target(fields, build, k).value|
  {
    hide Located, EmitField, Stored, Emit, Representable, EncodeScalar, ValidSources, Place, OwnCounts, OwnRoles;
    var values := Current(fields, build, k);
    if Derivable(fields, build, k) {
      ArrayFacts(fields, build, k);
      CurrentCounted(fields, build, k);
      CurrentExtentNext(fields, build, k);
      EmitNext(fields, values, k);
      EmitLocated(fields[k], values, values[k], region);
    }
  }

  /** Patching the count changes no extent. */
  lemma CurrentExtentNext(fields: seq<Field>, build: seq<Built>, k: nat)
    requires ValidSchema(fields) && CompleteBuild(fields, build) && k < |fields| && fields[k].kind.ArrayKind?
    requires Derivable(fields, build, k)
    ensures SameExtent(Emit(fields, Current(fields, build, k), k + 1), Emit(fields, Current(fields, build, k + 1), k + 1))
  {
    hide Emit, Representable, ValidSources;
    var a, b, c := Current(fields, build, k), Current(fields, build, k + 1), fields[k].kind.count;
    ArrayFacts(fields, build, k);
    CurrentCounted(fields, build, k);
    ZeroRepresentable(fields[c].kind.scalar);
    assert CountsBy(fields[k], c);
    forall j | 0 <= j < |fields| ensures Alike(fields, a, b, j) {
    }
    hide ValidSchema;
    EmitAlike(fields, a, b, k + 1);
  }

  // ----- the whole schema -----

  /** The layout a build has, if everything it derives exists. */
  ghost function Layout(fields: seq<Field>, build: seq<Built>): Option<seq<byte>>
    requires |build| == |fields|
  {
    if Buildable(fields, build) then Emit(fields, Values(fields, build), |fields|) else None
  }

  lemma NothingWritten(fields: seq<Field>, build: seq<Built>, child: ChildWriter, start: nat)
    requires ValidSchema(fields) && CompleteBuild(fields, build) && Open(child, start) && child.cursor == start
    ensures Progress(fields, build, 0, map[], Region(child, start))
  {
  }

  /** A field that cannot be written leaves no room for the whole layout. */
  lemma FieldFails(fields: seq<Field>, build: seq<Built>, k: nat, child: ChildWriter, start: nat)
    requires ValidSchema(fields) && CompleteBuild(fields, build) && k < |fields|
    requires Reaches(child, start, false, Target(fields, build, k))
    ensures Reaches(child, start, false, Layout(fields, build))
  {
    hide Emit, ValidSchema, BuiltFits, Derivable, Reaches;
    if Layout(fields, build).Some? {
      EmitEarlier(fields, Values(fields, build), k + 1, |fields|);
      CurrentExtent(fields, build, k + 1, k + 1);
      assert Derivable(fields, build, k);
    }
    PartFails(child, start, Target(fields, build, k), Layout(fields, build));
  }

  lemma AllWritten(fields: seq<Field>, build: seq<Built>, offsets: map<nat, nat>, child: ChildWriter, start: nat)
    requires Open(child, start) && Progress(fields, build, |fields|, offsets, Region(child, start))
    ensures Reaches(child, start, true, Layout(fields, build))
  {
    hide Emit, ValidSchema, BuiltFits, Derivable;
    CurrentAll(fields, build);
    AlreadyThere(child, start, Layout(fields, build));
  }

  /** A layout of a build has every field where the format says. */
  lemma LayoutLies(fields: seq<Field>, build: seq<Built>, region: seq<byte>)
    requires ValidSchema(fields) && CompleteBuild(fields, build)
    ensures Layout(fields, build) == Some(region) <==>
              Buildable(fields, build) && LaysOut(fields, Values(fields, build), region)
  {
    hide Emit, ValidSchema, BuiltFits, Buildable, LaysOut, PositionsKnown;
    if Buildable(fields, build) {
      BuildableConsistent(fields, build);
      ConsistentPositions(fields, Values(fields, build));
      LayoutIs(fields, Values(fields, build), region);
    }
  }

  /** Writes a complete build: on success the region is the layout of its values, and an
      obliging output is enough exactly when there is a layout and it fits. */
  method WriteDetached(fields: seq<Field>, build: seq<Built>, child: ChildWriter) returns (r: Result<Unit, BuildError>)
    requires ValidSchema(fields) && CompleteBuild(fields, build) && Open(child, child.cursor)
    modifies child, child.writer, child.writer.output
    ensures Reaches(child, old(child.cursor), r.Ok?, Layout(fields, build)) && child.writer.SameCapacity()
    ensures r.Ok? ==>
              Open(child, old(child.cursor)) && LaysOut(fields, Values(fields, build), Region(child, old(child.cursor)))
  {
    hide Progress, ValidSchema, BuiltFits, Layout, Target, ExplicitGeometry, Open, Region, Reaches, LaysOut;
    var start := child.cursor;
    var explicit := ExplicitGeometry(fields, 0);
    var offsets: map<nat, nat> := map[];
    NothingWritten(fields, build, child, start);
    for k := 0 to |fields|
      invariant Open(child, start) && Progress(fields, build, k, offsets, Region(child, start)) && child.writer.SameCapacity()
    {
      var more := WriteField(fields, build, k, child, start, explicit, offsets);
      if more.Err? {
        FieldFails(fields, build, k, child, start);
        return Err(more.error);
      }
      Reached(child, start, Target(fields, build, k));
      offsets := more.value;
    }
    AllWritten(fields, build, offsets, child, start);
    Reached(child, start, Layout(fields, build));
    LayoutLies(fields, build, Region(child, start));
    r := Ok(Unit);
  }

  method WriteField(fields: seq<Field>, build: seq<Built>, k: nat, child: ChildWriter, start: nat, explicit: bool, offsets: map<nat, nat>)
    returns (r: Result<map<nat, nat>, BuildError>)
    requires Open(child, start) && Progress(fields, build, k, offsets, Region(child, start)) && k < |fields|
    requires explicit == ExplicitGeometry(fields, 0)
    modifies child, child.writer, child.writer.output
    ensures FieldWritten(fields, build, k, child, start, r) && child.writer.SameCapacity()
  {
    hide Open, Region, Reaches, ExplicitGeometry, Target;
    if fields[k].condition.Some? {
      r := WriteConditional(fields, build, k, child, start, offsets);
      return;
    }
    match fields[k].kind {
      case ScalarKind(_, _, _) => r := WriteScalar(fields, build, k, child, start, explicit, offsets);
      case FlagKind(_) => r := WriteFlag(fields, build, k, child, start, offsets);
      case ArrayKind(_, _) => r := WriteArray(fields, build, k, child, start, explicit, offsets);
      case _ => r := WriteBytes(fields, build, k, child, start, explicit, offsets);
    }
  }

  /** Framing what a build is written as gives its values back, unless an array that other
      fields follow cannot be delimited. */
  lemma BuildFramesBack(fields: seq<Field>, build: seq<Built>, offset: nat)
    requires ValidSchema(fields) && CompleteBuild(fields, build) && LeadingItems(fields)
    requires Layout(fields, build).Some? && offset + |Layout(fields, build).value| <= USIZE_MAX
    ensures var r := FrameExactly(fields, Layout(fields, build).value, offset);
            && (r.Ok? ==> r.value == (Values(fields, build), |Layout(fields, build).value|))
            && (r.Ok? <==> forall k :: 0 <= k < |fields| ==> Delimited(fields, Values(fields, build), k))
            && (r.Err? ==> exists j :: FirstBlocked(fields, Values(fields, build), 0, j) && r == Err(LayoutUnavailable(j)))
  {
    hide Emit, ValidSchema, BuiltFits, Derivable, AllConsistent, LeadingItems, Delimited;
    BuildableConsistent(fields, build);
    FrameInvertsLayout(fields, Values(fields, build), Layout(fields, build).value, offset);
  }

  // ----- what the builder writes and framing cannot read -----

  function WholeSpan(input: seq<byte>, at: nat): Result<nat, nat> {
    Ok(|input|)
  }

  /** A child schema that ends in the rest of its span. */
  function TailItem(): Item {
    ItemSchema(None, false, WholeSpan, WholeSpan)
  }

  function ByteField(): Field {
    Field(ScalarKind(Scalar(1, Little, false), false, None), Follow(0, None), None)
  }

  function TailsField(): Field {
    Field(ArrayKind(TailItem(), 0), Follow(0, None), None)
  }

  function OneByte(b: byte): ItemSource {
    ItemSource([OutputRuns.Emit([b])], [b])
  }

  lemma ByteStored(b: byte)
    ensures Representable(Scalar(1, Little, false), b as int) && Stored(ByteField(), Int(b as int)) == [b]
  {
    assert Pow256(1) == 256;
  }

  lemma TailSource(b: byte)
    ensures ValidSource(TailItem(), OneByte(b))
  {
    PlainWrites([b]);
  }

  /** A count, an array of such items, a trailing byte. */
  function InnerTails(): seq<Field> {
    [ByteField(), TailsField(), ByteField()]
  }

  function InnerBuild(): seq<Built> {
    [Derived, Streamed([OneByte(7)]), Given(Int(9))]
  }

  lemma InnerAccepted()
    ensures ValidSchema(InnerTails()) && LeadingItems(InnerTails()) && CompleteBuild(InnerTails(), InnerBuild())
  {
    hide ValidSource;
    TailSource(7);
    ByteStored(9);
    var fields := InnerTails();
    assert ValidField(fields, 0) && ValidField(fields, 1) && ValidField(fields, 2);
  }

  lemma InnerValues()
    ensures Buildable(InnerTails(), InnerBuild())
    ensures Values(InnerTails(), InnerBuild()) == [Int(1), Counted([7], 1), Int(9)]
  {
    ByteStored(1);
    ConcatOne([7]);
    assert BytesOfSources([OneByte(7)]) == [[7]];
  }

  lemma PlainEmit(fields: seq<Field>, values: seq<Value>, k: nat, prefix: seq<byte>, more: seq<byte>)
    requires k < |fields| && k < |values| && Plain(fields[k]) && Emit(fields, values, k) == Some(prefix)
    requires more == prefix + Stored(fields[k], values[k])
    ensures Emit(fields, values, k + 1) == Some(more)
  {
    hide Stored, Emit;
    EmitNext(fields, values, k);
    assert prefix + Zeros(0) + Stored(fields[k], values[k]) == more;
  }

  lemma InnerEmit()
    ensures Emit(InnerTails(), [Int(1), Counted([7], 1), Int(9)], 3) == Some([1, 7, 9])
  {
    hide Stored, Representable, Plain;
    ByteStored(1);
    ByteStored(9);
    PlainFields();
    var values := [Int(1), Counted([7], 1), Int(9)];
    assert Emit(InnerTails(), values, 0) == Some([]);
    hide Emit;
    PlainEmit(InnerTails(), values, 0, [], [1]);
    PlainEmit(InnerTails(), values, 1, [1], [1, 7]);
    PlainEmit(InnerTails(), values, 2, [1, 7], [1, 7, 9]);
  }

  lemma PlainFields()
    ensures Plain(ByteField()) && Plain(TailsField())
    ensures forall span: seq<byte>, count: nat :: Stored(TailsField(), Counted(span, count)) == span
  {
  }

  /** The builder writes it; framing refuses what was written. */
  lemma InnerTailsRefused()
    ensures ValidSchema(InnerTails()) && LeadingItems(InnerTails()) && CompleteBuild(InnerTails(), InnerBuild())
    ensures Layout(InnerTails(), InnerBuild()) == Some([1, 7, 9])
    ensures FrameExactly(InnerTails(), [1, 7, 9], 0) == Err(LayoutUnavailable(1))
  {
    hide Emit, Buildable, ValidSchema, LeadingItems, CompleteBuild, FrameExactly;
    InnerAccepted();
    InnerValues();
    InnerEmit();
    BuildFramesBack(InnerTails(), InnerBuild(), 0);
    assert !Delimited(InnerTails(), Values(InnerTails(), InnerBuild()), 1);
  }

  /** The same array in last place, of two items. */
  function FinalTails(): seq<Field> {
    [ByteField(), TailsField()]
  }

  function FinalBuild(): seq<Built> {
    [Derived, Streamed([OneByte(7), OneByte(8)])]
  }

  lemma FinalAccepted()
    ensures ValidSchema(FinalTails()) && LeadingItems(FinalTails()) && CompleteBuild(FinalTails(), FinalBuild())
  {
    hide ValidSource;
    TailSource(7);
    TailSource(8);
    var fields := FinalTails();
    assert ValidField(fields, 0) && ValidField(fields, 1);
  }

  lemma FinalValues()
    ensures Buildable(FinalTails(), FinalBuild())
    ensures Values(FinalTails(), FinalBuild()) == [Int(2), Counted([7, 8], 2)]
  {
    ByteStored(2);
    ConcatOne([8]);
    assert BytesOfSources([OneByte(7), OneByte(8)]) == [[7], [8]] && [[7 as byte], [8]][1..] == [[8]];
    assert ValueOf(FinalTails(), FinalBuild(), 0) == Int(2);
    assert ValueOf(FinalTails(), FinalBuild(), 1) == Counted([7, 8], 2);
  }

  lemma FinalEmit()
    ensures Emit(FinalTails(), [Int(2), Counted([7, 8], 2)], 2) == Some([2, 7, 8])
  {
    hide Stored, Representable, Plain;
    ByteStored(2);
    PlainFields();
    var values := [Int(2), Counted([7, 8], 2)];
    assert Emit(FinalTails(), values, 0) == Some([]);
    hide Emit;
    PlainEmit(FinalTails(), values, 0, [], [2]);
    PlainEmit(FinalTails(), values, 1, [2], [2, 7, 8]);
  }

  /** Framing accepts it as two items; iteration yields one, of both bytes, and fails. */
  lemma FinalTailsMerge()
    ensures ValidSchema(FinalTails()) && LeadingItems(FinalTails()) && CompleteBuild(FinalTails(), FinalBuild())
    ensures Layout(FinalTails(), FinalBuild()) == Some([2, 7, 8])
    ensures FrameExactly(FinalTails(), [2, 7, 8], 0) == Ok(([Int(2), Counted([7, 8], 2)], 3))
    ensures var steps := Traversal(TailItem(), [7, 8], 2, 1, 0, 0);
            Pieces(steps, [7, 8]) == [[7, 8]] && !Clean(steps)
  {
    FinalAccepted();
    FinalValues();
    FinalEmit();
    hide Emit, Buildable, ValidSchema, LeadingItems, CompleteBuild, FrameExactly;
    BuildFramesBack(FinalTails(), FinalBuild(), 0);
    NothingLeft(TailItem(), 2, 1, 2);
    TraversalYields(TailItem(), [7, 8], 2, 1, 0, 0, 2);
    assert [7 as byte, 8][2..] == [] && [7 as byte, 8][..2] == [7, 8];
  }
}
