/** Generated sequential framing: one cursor moves over the fields, each placed by its
    geometry and delimited by its kind. Exact framing inverts the layout. */
module SequentialFrame {
  import opened Base
  import opened Errors
  import opened Grammar
  import opened Arrays
  import opened ArrayWriters
  import opened SequentialSchema

  datatype FrameError =
    | InputTooLong
    | LayoutUnavailable(field: nat)
    | PositionBeforeCursor(field: nat, position: nat, cursor: nat)
    | Shortage(offset: nat, additional: nat)
    | ConversionFailed(field: nat)
    | ConstantDiffers(field: nat)
    | ArrayFailed(field: nat, error: ArrayError<nat>)

  /** One framed field: its value and where it ends. */
  datatype Framed = Framed(value: Value, end: nat)

  // ----- reference reading -----

  /** Whether field `c` governs a length, a count or a position from field `j` on. */
  predicate Controls(fields: seq<Field>, c: nat, j: nat)
    requires j <= |fields|
    decreases |fields| - j
  {
    j < |fields| && (fields[j].kind == BoundedKind(c) || CountsBy(fields[j], c) || fields[j].placement == AtField(c)
                     || Controls(fields, c, j + 1))
  }

  function NeedMore(input: seq<byte>, offset: nat, end: nat): FrameError {
    Shortage(offset + |input|, Max(end - |input|, 0))
  }

  /** The start of field `k`, given the values read before it. */
  function StartOf(fields: seq<Field>, k: nat, env: seq<Value>, offset: nat, cursor: nat): (r: Result<nat, FrameError>)
    requires k < |fields|
    ensures r.Ok? ==> cursor <= r.value
  {
    match Place(fields[k], env, cursor)
    case None => Err(LayoutUnavailable(k))
    case Some(start) =>
      if start > USIZE_MAX then Err(LayoutUnavailable(k))
      else if start < cursor then Err(PositionBeforeCursor(k, start, cursor))
      else if offset + start > USIZE_MAX && !((fields[k].kind.BoundedKind? || fields[k].kind.RestKind?) && Plain(fields[k]))
      then Err(LayoutUnavailable(k))
      else Ok(start)
  }

  /** Bytes `start .. end`, when the input holds them. */
  function Sliced(input: seq<byte>, offset: nat, k: nat, start: nat, end: nat): Result<seq<byte>, FrameError>
    requires start <= end
  {
    if end > USIZE_MAX then Err(LayoutUnavailable(k))
    else if end > |input| then Err(NeedMore(input, offset, end))
    else Ok(input[start..end])
  }

  function FrameScalar(fields: seq<Field>, k: nat, input: seq<byte>, offset: nat, start: nat): Result<Framed, FrameError>
    requires k < |fields| && fields[k].kind.ScalarKind?
  {
    var ScalarKind(scalar, boolean, constant) := fields[k].kind;
    match Sliced(input, offset, k, start, start + scalar.width)
    case Err(error) => Err(error)
    case Ok(bytes) =>
      var raw := DecodeScalar(scalar, bytes);
      if boolean && !(0 <= raw <= 1) then Err(ConversionFailed(k))
      else if constant.Some? && raw != constant.value then Err(ConstantDiffers(k))
      else if Controls(fields, k, 0) && !(0 <= raw <= USIZE_MAX)
      then Err(if scalar.signed then ConversionFailed(k) else LayoutUnavailable(k))
      else Ok(Framed(Int(raw), start + scalar.width))
  }

  function FrameBytes(input: seq<byte>, offset: nat, k: nat, start: nat, end: nat): Result<Framed, FrameError>
    requires start <= end
  {
    match Sliced(input, offset, k, start, end)
    case Err(error) => Err(error)
    case Ok(bytes) => Ok(Framed(Bytes(bytes), end))
  }

  /** A final array takes the rest of an exact span; an earlier one must be delimited. */
  ghost function FrameArray(fields: seq<Field>, k: nat, count: nat, input: seq<byte>, offset: nat, start: nat): Result<Framed, FrameError>
    requires k < |fields| && fields[k].kind.ArrayKind?
  {
    var item := fields[k].kind.item;
    if start > |input| then Err(ArrayFailed(k, ShortArray(offset + |input|, start - |input|)))
    else if k + 1 == |fields| then Ok(Framed(Counted(input[start..], count), |input|))
    else if count != 0 && !item.leading then Err(LayoutUnavailable(k))
    else
      match ParentExtent(item, input[start..], count, offset + start)
      case Err(error) => Err(ArrayFailed(k, error))
      case Ok(n) =>
        if start + n > USIZE_MAX then Err(LayoutUnavailable(k))
        else Ok(Framed(Counted(input[start..start + n], count), start + n))
  }

  /** Every kind but arrays, read at its start. */
  function FramePlain(fields: seq<Field>, k: nat, env: seq<Value>, input: seq<byte>, offset: nat, start: nat): Result<Framed, FrameError>
    requires k < |fields| && !fields[k].kind.ArrayKind?
  {
    match fields[k].kind
    case ScalarKind(_, _, _) =>
      if Suppressed(fields[k], env) then Ok(Framed(Absent, start)) else FrameScalar(fields, k, input, offset, start)
    case FixedKind(len, expected) =>
      (match Sliced(input, offset, k, start, start + len)
       case Err(error) => Err(error)
       case Ok(bytes) =>
         if expected.Some? && bytes != expected.value then Err(ConstantDiffers(k)) else Ok(Framed(Bytes(bytes), start + len)))
    case BoundedKind(c) => FrameBytes(input, offset, k, start, start + Max(IntAt(env, c), 0))
    case RestKind => FrameBytes(input, offset, k, start, Max(start, |input|))
    case FlagKind(c) => Ok(Framed(Present(IntAt(env, c) == 1), start))
  }

  ghost function FrameField(fields: seq<Field>, k: nat, env: seq<Value>, input: seq<byte>, offset: nat, cursor: nat): Result<Framed, FrameError>
    requires k < |fields|
  {
    match StartOf(fields, k, env, offset, cursor)
    case Err(error) => Err(error)
    case Ok(start) =>
      if fields[k].kind.ArrayKind?
      then FrameArray(fields, k, Max(IntAt(env, fields[k].kind.count), 0), input, offset, start)
      else FramePlain(fields, k, env, input, offset, start)
  }

  /** The fields from `|env|` on, with `env` holding the values before them. */
  ghost function FrameFrom(fields: seq<Field>, env: seq<Value>, input: seq<byte>, offset: nat, cursor: nat): Result<(seq<Value>, nat), FrameError>
    requires |env| <= |fields|
    decreases |fields| - |env|
  {
    if |env| == |fields| then Ok((env, cursor))
    else
      match FrameField(fields, |env|, env, input, offset, cursor)
      case Err(error) => Err(error)
      case Ok(framed) => FrameFrom(fields, env + [framed.value], input, offset, framed.end)
  }

  /** Exact framing of a whole input. */
  ghost function FrameExactly(fields: seq<Field>, input: seq<byte>, offset: nat): Result<(seq<Value>, nat), FrameError> {
    if offset + |input| > USIZE_MAX then Err(InputTooLong) else FrameFrom(fields, [], input, offset, 0)
  }

  /** The generated steps, in field order, on one cursor. */
  method FrameExact(fields: seq<Field>, input: seq<byte>, offset: nat) returns (r: Result<(seq<Value>, nat), FrameError>)
    ensures r == FrameExactly(fields, input, offset)
  {
    hide FrameField;
    if offset + |input| > USIZE_MAX {
      return Err(InputTooLong);
    }
    var env: seq<Value> := [];
    var cursor := 0;
    for k := 0 to |fields|
      invariant |env| == k
      invariant FrameFrom(fields, [], input, offset, 0) == FrameFrom(fields, env, input, offset, cursor)
    {
      var framed := FrameOne(fields, k, env, input, offset, cursor);
      match framed {
        case Err(error) => return Err(error);
        case Ok(Framed(value, end)) =>
          env, cursor := env + [value], end;
      }
    }
    r := Ok((env, cursor));
  }

  method FrameOne(fields: seq<Field>, k: nat, env: seq<Value>, input: seq<byte>, offset: nat, cursor: nat)
    returns (r: Result<Framed, FrameError>)
    requires k < |fields| && offset + |input| <= USIZE_MAX
    ensures r == FrameField(fields, k, env, input, offset, cursor)
  {
    hide StartOf, FrameArray, FramePlain, IntAt;
    var located := StartOf(fields, k, env, offset, cursor);
    match located {
      case Err(error) => r := Err(error);
      case Ok(start) =>
        if fields[k].kind.ArrayKind? {
          r := FrameArraySpan(fields, k, Max(IntAt(env, fields[k].kind.count), 0), input, offset, start);
        } else {
          r := FramePlain(fields, k, env, input, offset, start);
        }
    }
  }

  method FrameArraySpan(fields: seq<Field>, k: nat, count: nat, input: seq<byte>, offset: nat, start: nat)
    returns (r: Result<Framed, FrameError>)
    requires k < |fields| && fields[k].kind.ArrayKind? && |input| <= USIZE_MAX
    ensures r == FrameArray(fields, k, count, input, offset, start)
  {
    hide ParentExtent;
    var item := fields[k].kind.item;
    if start > |input| {
      return Err(ArrayFailed(k, ShortArray(offset + |input|, start - |input|)));
    }
    if k + 1 == |fields| {
      return Ok(Framed(Counted(input[start..], count), |input|));
    }
    if count != 0 && !item.leading {
      return Err(LayoutUnavailable(k));
    }
    var consumed := FrameArrayExtent(item, input[start..], count, offset + start);
    match consumed {
      case Err(error) => r := Err(ArrayFailed(k, error));
      case Ok(n) =>
        if start + n > USIZE_MAX {
          return Err(LayoutUnavailable(k));
        }
        r := Ok(Framed(Counted(input[start..start + n], count), start + n));
    }
  }

  // ----- what exact framing accepts -----

  /** A controller's value is a machine word. */
  ghost predicate ControlFits(fields: seq<Field>, values: seq<Value>, k: nat)
    requires k < |values|
  {
    Controls(fields, k, 0) ==> values[k].Int? && 0 <= values[k].v <= USIZE_MAX
  }

  /** Field `k` has a value of its kind that agrees with its controllers; nothing is said of
      the items of an array. */
  ghost predicate ReadOk(fields: seq<Field>, values: seq<Value>, k: nat)
    requires k < |fields| && k < |values|
  {
    match fields[k].kind
    case ArrayKind(_, c) => values[k].Counted? && c < |values| && values[c] == Int(values[k].count)
    case _ => Consistent(fields, values, k)
  }

  /** The span of an array that other fields follow is what its items are delimited to: the
      fixed width for each of them, or the widths they are read with. */
  ghost predicate ArrayOk(fields: seq<Field>, values: seq<Value>, input: seq<byte>, offset: nat, k: nat, start: nat)
    requires k < |fields| && k < |values| && start <= |input|
  {
    fields[k].kind.ArrayKind? && k + 1 < |fields| ==>
      && values[k].Counted? && (values[k].count > 0 ==> fields[k].kind.item.leading)
      && Delimits(fields[k].kind.item, input[start..], values[k].count, offset + start, Ok(|values[k].span|))
  }

  /** A last field that takes what is left ends with the input. */
  predicate TailReached(fields: seq<Field>, input: seq<byte>, k: nat, end: nat)
    requires k < |fields|
  {
    k + 1 == |fields| && (fields[k].kind.RestKind? || fields[k].kind.ArrayKind?) ==> end == |input|
  }

  ghost predicate FieldOk(fields: seq<Field>, values: seq<Value>, input: seq<byte>, offset: nat, k: nat, cursor: nat, end: nat)
    requires k < |fields| && k < |values|
  {
    && LiesAt(fields, values, input, k, cursor, end) && TailReached(fields, input, k, end)
    && ReadOk(fields, values, k) && ControlFits(fields, values, k)
    && ArrayOk(fields, values, input, offset, k, end - |Stored(fields[k], values[k])|)
  }

  /** The values are those of the input when every field, in order, lies in it where the
      format says, with a value of its kind. */
  ghost predicate Accepted(fields: seq<Field>, values: seq<Value>, input: seq<byte>, offset: nat, ends: seq<nat>) {
    && |values| == |fields| && |ends| == |fields| + 1 && ends[0] == 0 && offset + |input| <= USIZE_MAX
    && forall k, next :: 0 <= k < |fields| && next == k + 1 ==> FieldOk(fields, values, input, offset, k, ends[k], ends[next])
  }

  lemma AcceptedLie(fields: seq<Field>, values: seq<Value>, input: seq<byte>, offset: nat, ends: seq<nat>)
    requires ValidSchema(fields) && Accepted(fields, values, input, offset, ends)
    ensures LieIn(fields, values, input, ends) && PositionsKnown(fields, values)
  {
    hide LiesAt, ReadOk, ArrayOk, ControlFits, PositionKnown, ValidSchema;
    forall k | 0 <= k < |fields| ensures PositionKnown(fields[k], values) {
      var next := k + 1;
      assert FieldOk(fields, values, input, offset, k, ends[k], ends[next]);
      LiesPosition(fields, values, input, k, ends[k], ends[next]);
    }
  }

  lemma LiesPosition(fields: seq<Field>, values: seq<Value>, input: seq<byte>, k: nat, cursor: nat, end: nat)
    requires ValidSchema(fields) && k < |fields| && k < |values| && LiesAt(fields, values, input, k, cursor, end)
    ensures PositionKnown(fields[k], values)
  {
    hide Stored, ValidKind, OwnCounts, OwnRoles;
    assert ValidField(fields, k);
  }

  // ----- every accepted field is read -----

  /** Field `k` by the place framing computes: `start` and `end` delimit what it stores. */
  ghost predicate Laid(fields: seq<Field>, values: seq<Value>, k: nat, region: seq<byte>, cursor: nat, start: nat, end: nat)
    requires k < |fields| && k < |values|
  {
    && cursor <= start <= end <= |region| && Place(fields[k], values, cursor) == Some(start)
    && region[start..end] == Stored(fields[k], values[k])
  }

  lemma LaidOut(fields: seq<Field>, values: seq<Value>, k: nat, region: seq<byte>, cursor: nat, end: nat)
    requires ValidSchema(fields) && k < |fields| && k < |values| && LiesAt(fields, values, region, k, cursor, end)
    ensures end >= |Stored(fields[k], values[k])|
    ensures Laid(fields, values, k, region, cursor, end - |Stored(fields[k], values[k])|, end)
  {
    LiesPosition(fields, values, region, k, cursor, end);
    hide Place, Stored, StartsAt, ValidSchema;
    PlaceIs(fields[k], values, cursor, end - |Stored(fields[k], values[k])|);
  }

  lemma IntBefore(values: seq<Value>, k: nat, c: nat)
    requires c < k <= |values|
    ensures IntAt(values[..k], c) == IntAt(values, c)
  {
  }

  lemma StartReads(fields: seq<Field>, values: seq<Value>, k: nat, offset: nat, region: seq<byte>, cursor: nat, start: nat, end: nat)
    requires ValidSchema(fields) && k < |fields| && k < |values| && offset + |region| <= USIZE_MAX
    requires Laid(fields, values, k, region, cursor, start, end)
    ensures StartOf(fields, k, values[..k], offset, cursor) == Ok(start)
    ensures Suppressed(fields[k], values[..k]) == Suppressed(fields[k], values)
  {
    hide ValidSchema, Suppressed;
    assert values[..k][..k] == values[..k];
    PlaceSame(fields, values[..k], values, k);
    hide Place;
  }

  lemma ScalarReads(fields: seq<Field>, values: seq<Value>, k: nat, region: seq<byte>, offset: nat, start: nat, end: nat)
    requires k < |fields| && k < |values| && fields[k].kind.ScalarKind? && offset + |region| <= USIZE_MAX
    requires Consistent(fields, values, k) && !Suppressed(fields[k], values) && ControlFits(fields, values, k)
    requires start <= end <= |region| && region[start..end] == Stored(fields[k], values[k])
    ensures FrameScalar(fields, k, region, offset, start) == Ok(Framed(values[k], end))
  {
    hide Controls, Representable, DecodeScalar, EncodeScalar;
    ScalarRoundTrip(fields[k].kind.scalar, values[k].v);
  }

  lemma BytesRead(fields: seq<Field>, value: Value, k: nat, region: seq<byte>, offset: nat, start: nat, end: nat)
    requires value.Bytes? && start <= end <= |region| && region[start..end] == value.bytes && offset + |region| <= USIZE_MAX
    ensures FrameBytes(region, offset, k, start, end) == Ok(Framed(value, end))
    ensures Sliced(region, offset, k, start, end) == Ok(value.bytes)
  {
  }

  lemma StoredBytes(field: Field, value: Value)
    ensures value.Bytes? ==> Stored(field, value) == value.bytes
    ensures value.Present? || value.Absent? ==> Stored(field, value) == []
    ensures value.Counted? ==> Stored(field, value) == value.span
  {
  }

  lemma ArrayReads(fields: seq<Field>, values: seq<Value>, k: nat, region: seq<byte>, offset: nat, start: nat, end: nat)
    requires k < |fields| && k < |values| && fields[k].kind.ArrayKind? && values[k].Counted? && offset + |region| <= USIZE_MAX
    requires start <= end <= |region| && region[start..end] == values[k].span
    requires TailReached(fields, region, k, end) && ArrayOk(fields, values, region, offset, k, start)
    ensures FrameArray(fields, k, values[k].count, region, offset, start) == Ok(Framed(values[k], end))
  {
    hide ParentExtent, Delimits;
    if k + 1 < |fields| {
      DelimitsOne(fields[k].kind.item, region[start..], values[k].count, offset + start, |values[k].span|);
    } else {
      assert region[start..] == region[start..end];
    }
  }

  /** Framing reads every field that can be accepted, and stops where it ends. */
  lemma FieldAccepted(fields: seq<Field>, values: seq<Value>, k: nat, input: seq<byte>, offset: nat, cursor: nat, end: nat)
    requires ValidSchema(fields) && k < |fields| && k < |values| && offset + |input| <= USIZE_MAX
    requires FieldOk(fields, values, input, offset, k, cursor, end)
    ensures FrameField(fields, k, values[..k], input, offset, cursor) == Ok(Framed(values[k], end))
  {
    hide Place, Stored, Emitted, StartOf, Suppressed, FrameScalar, FrameArray, FrameBytes, Sliced, StartsAt, Laid, ArrayOk, ControlFits;
    LaidOut(fields, values, k, input, cursor, end);
    var start := end - |Stored(fields[k], values[k])|;
    StartReads(fields, values, k, offset, input, cursor, start, end);
    assert ValidField(fields, k);
    hide ValidSchema, OwnCounts, OwnRoles, ValidCondition, ValidPlacement;
    StoredBytes(fields[k], values[k]);
    match fields[k].kind
    case ScalarKind(_, _, _) =>
      if !Suppressed(fields[k], values) {
        ScalarReads(fields, values, k, input, offset, start, end);
      }
    case FixedKind(_, _) => BytesRead(fields, values[k], k, input, offset, start, end);
    case BoundedKind(c) =>
      IntBefore(values, k, c);
      BytesRead(fields, values[k], k, input, offset, start, end);
    case RestKind => BytesRead(fields, values[k], k, input, offset, start, end);
    case ArrayKind(_, c) =>
      IntBefore(values, k, c);
      ArrayReads(fields, values, k, input, offset, start, end);
    case FlagKind(c) => IntBefore(values, k, c);
  }

  lemma {:induction false} AllAccepted(fields: seq<Field>, values: seq<Value>, k: nat, input: seq<byte>, offset: nat, ends: seq<nat>)
    requires ValidSchema(fields) && Accepted(fields, values, input, offset, ends) && k <= |fields|
    ensures FrameFrom(fields, values[..k], input, offset, ends[k]) == Ok((values, ends[|fields|]))
    decreases |fields| - k
  {
    hide FrameField, FieldOk, ValidSchema;
    if k < |fields| {
      var next := k + 1;
      FieldAccepted(fields, values, k, input, offset, ends[k], ends[next]);
      AllAccepted(fields, values, next, input, offset, ends);
      assert values[..k] + [values[k]] == values[..next];
    } else {
      assert values[..k] == values;
    }
  }

  // ----- every field that is read is accepted -----

  /** The fields before `|values|`, up to `ends[|values|]`. */
  ghost predicate Sound(fields: seq<Field>, values: seq<Value>, input: seq<byte>, offset: nat, ends: seq<nat>) {
    && |values| <= |fields| && |ends| == |values| + 1 && ends[0] == 0 && ends[|values|] <= |input|
    && offset + |input| <= USIZE_MAX
    && forall j, next :: 0 <= j < |values| && next == j + 1 ==> FieldOk(fields, values, input, offset, j, ends[j], ends[next])
  }

  /** What reading one field adds. */
  ghost predicate Adds(fields: seq<Field>, k: nat, env: seq<Value>, input: seq<byte>, offset: nat, cursor: nat, framed: Framed)
    requires k == |env| < |fields|
  {
    var values, stored := env + [framed.value], Stored(fields[k], framed.value);
    && ReadOk(fields, values, k) && ControlFits(fields, values, k)
    && Place(fields[k], env, cursor).Some? && cursor <= Place(fields[k], env, cursor).value
    && framed.end == Place(fields[k], env, cursor).value + |stored| <= |input|
    && input[framed.end - |stored|..framed.end] == stored
    && TailReached(fields, input, k, framed.end)
    && ArrayOk(fields, values, input, offset, k, framed.end - |stored|)
  }

  lemma ScalarAdds(fields: seq<Field>, k: nat, env: seq<Value>, input: seq<byte>, offset: nat, cursor: nat, start: nat, framed: Framed)
    requires ValidSchema(fields) && k == |env| < |fields| && fields[k].kind.ScalarKind? && !Suppressed(fields[k], env)
    requires Place(fields[k], env, cursor) == Some(start) && cursor <= start
    requires FrameScalar(fields, k, input, offset, start) == Ok(framed)
    ensures Adds(fields, k, env, input, offset, cursor, framed)
  {
    hide Place, Controls, DecodeScalar, EncodeScalar, Representable, OwnCounts, OwnRoles;
    assert ValidField(fields, k);
    ScalarBytes(fields[k].kind.scalar, input[start..start + fields[k].kind.scalar.width]);
    SuppressedMore(fields, k, env, framed.value);
  }

  lemma ArrayAdds(fields: seq<Field>, k: nat, env: seq<Value>, input: seq<byte>, offset: nat, cursor: nat, start: nat, framed: Framed)
    requires ValidSchema(fields) && k == |env| < |fields| && fields[k].kind.ArrayKind?
    requires Place(fields[k], env, cursor) == Some(start) && cursor <= start
    requires var c := fields[k].kind.count; c < k && env[c].Int? && env[c].v >= 0
    requires FrameArray(fields, k, env[fields[k].kind.count].v, input, offset, start) == Ok(framed)
    ensures Adds(fields, k, env, input, offset, cursor, framed)
  {
    hide Place, Controls, ParentExtent, Delimits, ValidSchema;
    NotController(fields, k);
    if k + 1 < |fields| {
      ParentDelimits(fields[k].kind.item, input[start..], framed.value.count, offset + start);
    }
  }

  lemma SuppressedMore(fields: seq<Field>, k: nat, env: seq<Value>, value: Value)
    requires ValidSchema(fields) && k == |env| < |fields|
    ensures Suppressed(fields[k], env + [value]) == Suppressed(fields[k], env)
  {
    assert ValidField(fields, k);
  }

  /** Controllers of a later field were read as integers. */
  lemma ControllerRead(fields: seq<Field>, env: seq<Value>, input: seq<byte>, offset: nat, ends: seq<nat>, k: nat, c: nat)
    requires ValidSchema(fields) && Sound(fields, env, input, offset, ends) && k == |env| < |fields|
    requires fields[k].kind == BoundedKind(c) || CountsBy(fields[k], c) || fields[k].kind == FlagKind(c) || fields[k].placement == AtField(c)
    ensures c < k && env[c].Int?
    ensures fields[k].kind == FlagKind(c) ==> 0 <= env[c].v <= 1
    ensures fields[k].kind != FlagKind(c) ==> env[c].v >= 0 && IntAt(env, c) == env[c].v
  {
    hide Controls, LiesAt, ArrayOk, OwnCounts, OwnRoles;
    assert ValidField(fields, k);
    var next := c + 1;
    assert FieldOk(fields, env, input, offset, c, ends[c], ends[next]);
    if fields[k].kind != FlagKind(c) {
      ControlsFrom(fields, c, k, 0);
    }
  }

  lemma {:induction false} ControlsFrom(fields: seq<Field>, c: nat, k: nat, j: nat)
    requires j <= k < |fields|
    requires fields[k].kind == BoundedKind(c) || CountsBy(fields[k], c) || fields[k].placement == AtField(c)
    ensures Controls(fields, c, j)
    decreases k - j
  {
    if j < k {
      ControlsFrom(fields, c, k, j + 1);
    }
  }

  lemma {:induction false} SomeRole(fields: seq<Field>, c: nat, j: nat) returns (k: nat)
    requires j <= |fields| && Controls(fields, c, j)
    ensures k < |fields| && (fields[k].kind == BoundedKind(c) || CountsBy(fields[k], c) || fields[k].placement == AtField(c))
    decreases |fields| - j
  {
    if fields[j].kind == BoundedKind(c) || CountsBy(fields[j], c) || fields[j].placement == AtField(c) {
      k := j;
    } else {
      k := SomeRole(fields, c, j + 1);
    }
  }

  /** Only scalars control anything. */
  lemma NotController(fields: seq<Field>, k: nat)
    requires ValidSchema(fields) && k < |fields| && !(fields[k].kind.ScalarKind? && Plain(fields[k]))
    ensures !Controls(fields, k, 0)
  {
    if Controls(fields, k, 0) {
      ControllerPlain(fields, k);
    }
  }

  lemma ControllerPlain(fields: seq<Field>, c: nat)
    requires ValidSchema(fields) && c < |fields| && Controls(fields, c, 0)
    ensures fields[c].kind.ScalarKind? && Plain(fields[c])
  {
    var k := SomeRole(fields, c, 0);
    assert ValidField(fields, k);
  }

  lemma FieldAdds(fields: seq<Field>, k: nat, env: seq<Value>, input: seq<byte>, offset: nat, ends: seq<nat>, framed: Framed)
    requires ValidSchema(fields) && Sound(fields, env, input, offset, ends) && k == |env| < |fields|
    requires FrameField(fields, k, env, input, offset, ends[k]) == Ok(framed)
    ensures Adds(fields, k, env, input, offset, ends[k], framed)
  {
    hide Controls, Suppressed, FieldOk, OwnCounts, OwnRoles, FrameArray, FrameScalar, Place;
    var cursor := ends[k];
    var start := StartOf(fields, k, env, offset, cursor).value;
    assert ValidField(fields, k);
    SuppressedMore(fields, k, env, framed.value);
    match fields[k].kind
    case ScalarKind(_, _, _) =>
      if Suppressed(fields[k], env) {
        SuppressedPlace(fields[k], env, cursor);
        NotController(fields, k);
      } else {
        ScalarAdds(fields, k, env, input, offset, cursor, start, framed);
      }
    case FixedKind(_, _) => NotController(fields, k);
    case BoundedKind(c) =>
      NotController(fields, k);
      ControllerRead(fields, env, input, offset, ends, k, c);
    case RestKind => NotController(fields, k);
    case ArrayKind(_, c) =>
      ControllerRead(fields, env, input, offset, ends, k, c);
      ArrayAdds(fields, k, env, input, offset, cursor, start, framed);
    case FlagKind(c) =>
      NotController(fields, k);
      ControllerRead(fields, env, input, offset, ends, k, c);
      assert Plain(fields[k]);
      PlainPlace(fields[k], env, cursor);
  }

  lemma SuppressedPlace(field: Field, env: seq<Value>, cursor: nat)
    requires Suppressed(field, env)
    ensures !Plain(field) && Place(field, env, cursor) == Some(cursor)
  {
  }

  lemma PlainPlace(field: Field, env: seq<Value>, cursor: nat)
    requires Plain(field)
    ensures Place(field, env, cursor) == Some(cursor)
  {
  }

  /** Reading one more field stays sound. */
  lemma SoundMore(fields: seq<Field>, k: nat, env: seq<Value>, input: seq<byte>, offset: nat, ends: seq<nat>, framed: Framed)
    requires ValidSchema(fields) && Sound(fields, env, input, offset, ends) && k == |env| < |fields|
    requires Adds(fields, k, env, input, offset, ends[k], framed)
    ensures Sound(fields, env + [framed.value], input, offset, ends + [framed.end])
  {
    hide FieldOk, Adds, ValidSchema;
    var values, longer := env + [framed.value], ends + [framed.end];
    AddsOk(fields, k, env, input, offset, ends, framed);
    forall j, next | 0 <= j < |values| && next == j + 1
      ensures FieldOk(fields, values, input, offset, j, longer[j], longer[next])
    {
      if j < k {
        assert FieldOk(fields, env, input, offset, j, ends[j], ends[next]);
        FieldMore(fields, env, framed.value, input, offset, j, ends[j], ends[next]);
      }
    }
  }

  lemma AddsOk(fields: seq<Field>, k: nat, env: seq<Value>, input: seq<byte>, offset: nat, ends: seq<nat>, framed: Framed)
    requires ValidSchema(fields) && Sound(fields, env, input, offset, ends) && k == |env| < |fields|
    requires Adds(fields, k, env, input, offset, ends[k], framed)
    ensures FieldOk(fields, env + [framed.value], input, offset, k, ends[k], framed.end) && framed.end <= |input|
  {
    hide FieldOk, Place, Stored, StartsAt, ReadOk, ArrayOk, ControlFits, ValidKind, OwnCounts, OwnRoles, ValidCondition, IntAt, Controller;
    var values := env + [framed.value];
    assert values[..k] == env && env[..k] == env;
    PlaceSame(fields, values, env, k);
    assert ValidField(fields, k);
    if fields[k].placement.AtField? {
      ControllerRead(fields, env, input, offset, ends, k, fields[k].placement.controller);
    }
    hide ValidSchema;
    PlaceIs(fields[k], values, ends[k], Place(fields[k], env, ends[k]).value);
    assert values[k] == framed.value;
    AddsLies(fields, k, env, input, offset, ends[k], framed);
  }

  lemma AddsLies(fields: seq<Field>, k: nat, env: seq<Value>, input: seq<byte>, offset: nat, cursor: nat, framed: Framed)
    requires k == |env| < |fields| && Adds(fields, k, env, input, offset, cursor, framed)
    requires StartsAt(fields[k], env + [framed.value], cursor, Place(fields[k], env, cursor).value)
    ensures FieldOk(fields, env + [framed.value], input, offset, k, cursor, framed.end)
  {
    hide Place, Stored, StartsAt, ReadOk, ArrayOk, ControlFits;
  }

  /** What was read of a field does not depend on later values. */
  lemma FieldMore(fields: seq<Field>, env: seq<Value>, value: Value, input: seq<byte>, offset: nat, j: nat, cursor: nat, end: nat)
    requires ValidSchema(fields) && j < |env| < |fields| && FieldOk(fields, env, input, offset, j, cursor, end)
    ensures FieldOk(fields, env + [value], input, offset, j, cursor, end)
  {
    hide Stored, Delimits, ReadOk, Controls;
    ReadMore(fields, env, value, j);
    LiesPosition(fields, env, input, j, cursor, end);
    assert ValidField(fields, j);
    hide ValidSchema, OwnCounts, OwnRoles, ValidKind;
    var after := env + [value];
    assert after[j] == env[j] && forall c :: 0 <= c < |env| ==> after[c] == env[c];
  }

  lemma ReadMore(fields: seq<Field>, env: seq<Value>, value: Value, j: nat)
    requires ValidSchema(fields) && j < |env| < |fields| && ReadOk(fields, env, j)
    ensures ReadOk(fields, env + [value], j)
  {
    hide OwnCounts, OwnRoles, Representable;
    assert ValidField(fields, j);
    hide ValidSchema;
    var after := env + [value];
    assert after[j] == env[j] && forall c :: 0 <= c < |env| ==> after[c] == env[c];
  }

  lemma {:induction false} FrameSound(fields: seq<Field>, env: seq<Value>, input: seq<byte>, offset: nat, ends: seq<nat>)
    returns (all: seq<nat>)
    requires |env| <= |fields| && ValidSchema(fields) && Sound(fields, env, input, offset, ends)
    requires FrameFrom(fields, env, input, offset, ends[|env|]).Ok?
    ensures var (values, end) := FrameFrom(fields, env, input, offset, ends[|env|]).value;
            |values| == |fields| && Sound(fields, values, input, offset, all) && all[|fields|] == end
    decreases |fields| - |env|
  {
    hide ValidSchema, FieldOk, FrameField, Adds;
    if |env| < |fields| {
      var framed := FrameField(fields, |env|, env, input, offset, ends[|env|]).value;
      FieldAdds(fields, |env|, env, input, offset, ends, framed);
      SoundMore(fields, |env|, env, input, offset, ends, framed);
      all := FrameSound(fields, env + [framed.value], input, offset, ends + [framed.end]);
    } else {
      all := ends;
    }
  }

  /** Exact framing accepts an input exactly when all fields lie in it, and gives their
      values and the end of the last one. */
  lemma FrameAccepts(fields: seq<Field>, input: seq<byte>, offset: nat, values: seq<Value>, end: nat)
    requires ValidSchema(fields)
    ensures FrameExactly(fields, input, offset) == Ok((values, end)) <==>
              exists ends :: Accepted(fields, values, input, offset, ends) && ends[|fields|] == end
  {
    hide FieldOk, ValidSchema;
    if FrameExactly(fields, input, offset) == Ok((values, end)) {
      assert Sound(fields, [], input, offset, [0]);
      var ends := FrameSound(fields, [], input, offset, [0]);
      assert Accepted(fields, values, input, offset, ends);
    }
    if ends :| Accepted(fields, values, input, offset, ends) && ends[|fields|] == end {
      AllAccepted(fields, values, 0, input, offset, ends);
    }
  }

  /** Writing what was read gives the same extent and, when only zeros lie in the gaps, the
      same bytes. */
  lemma AcceptedWrites(fields: seq<Field>, values: seq<Value>, input: seq<byte>, offset: nat, ends: seq<nat>)
    requires ValidSchema(fields) && Accepted(fields, values, input, offset, ends)
    ensures Emit(fields, values, |fields|).Some? && |Emit(fields, values, |fields|).value| == ends[|fields|] <= |input|
    ensures GapsZero(fields, values, input, ends) ==> Emit(fields, values, |fields|) == Some(input[..ends[|fields|]])
  {
    hide Emit, LiesAt, ReadOk, ArrayOk, ControlFits, ValidSchema, GapsZero, PositionsKnown;
    AcceptedLie(fields, values, input, offset, ends);
    LiesExtent(fields, values, input, ends, |fields|);
    LiesInside(fields, values, input, ends);
  }

  lemma LiesInside(fields: seq<Field>, values: seq<Value>, input: seq<byte>, ends: seq<nat>)
    requires LieIn(fields, values, input, ends)
    ensures ends[|fields|] <= |input|
  {
    hide StartsAt, Stored;
    if fields != [] {
      var last := |fields| - 1;
      assert LiesAt(fields, values, input, last, ends[last], ends[|fields|]);
    }
  }

  /** An accepted array that other fields follow holds its items: as many bytes as they have
      in all for a fixed width, and otherwise a span that iterates cleanly. */
  lemma AcceptedItems(fields: seq<Field>, values: seq<Value>, input: seq<byte>, offset: nat, ends: seq<nat>, k: nat, next: nat)
    requires LeadingItems(fields) && Accepted(fields, values, input, offset, ends)
    requires k < |fields| && fields[k].kind.ArrayKind? && next == k + 1 < |fields|
    ensures values[k].Counted?
    ensures var item := fields[k].kind.item;
            var Counted(span, count) := values[k];
            match item.fixed
            case Some(width) => |span| == width * count && (count > 0 ==> width > 0)
            case None => |span| <= ends[next] && Clean(Traversal(item, span, count, offset + (ends[next] - |span|), 0, 0))
  {
    hide TilesTo, Traversal, LeadingItem, StartsAt, ReadsNext;
    assert FieldOk(fields, values, input, offset, k, ends[k], ends[next]);
    var item := fields[k].kind.item;
    var Counted(span, count) := values[k];
    var start := ends[next] - |span|;
    if item.fixed.None? {
      if count > 0 {
        TilesToInside(item, input[start..], offset + start, count, |span|);
      } else {
        TilesNone(item, input[start..], offset + start, |span|);
        TilesNone(item, span, offset + start, |span|);
      }
      assert input[start..][..|span|] == span;
      CleanIs(item, span, count, offset + start);
    }
  }

  /** What an accepted field says in terms of the bytes from `start` to `end`. */
  ghost predicate Says(fields: seq<Field>, values: seq<Value>, input: seq<byte>, k: nat, start: nat, end: nat)
    requires k < |fields| == |values| && start <= end <= |input|
  {
    var value, bytes, condition := values[k], input[start..end], fields[k].condition;
    match fields[k].kind
    case ScalarKind(scalar, boolean, constant) =>
      if condition.Some? && condition.value < |values| && values[condition.value] == Present(false)
      then value == Absent && bytes == []
      else
        && |bytes| == scalar.width && value == Int(DecodeScalar(scalar, bytes))
        && (boolean ==> value == Int(0) || value == Int(1)) && (constant.Some? ==> value == Int(constant.value))
    case FixedKind(len, expected) =>
      value == Bytes(bytes) && |bytes| == len && (expected.Some? ==> bytes == expected.value)
    case BoundedKind(c) => value == Bytes(bytes) && c < |values| && values[c] == Int(|bytes|)
    case RestKind => value == Bytes(input[start..])
    case ArrayKind(_, c) =>
      && value.Counted? && value.span == bytes && c < |values| && values[c] == Int(value.count)
      && (k + 1 == |fields| ==> bytes == input[start..])
    case FlagKind(c) =>
      && bytes == [] && c < |values|
      && ((value == Present(true) && values[c] == Int(1)) || (value == Present(false) && values[c] == Int(0)))
  }

  lemma AcceptedSays(fields: seq<Field>, values: seq<Value>, input: seq<byte>, offset: nat, ends: seq<nat>, k: nat, next: nat)
    requires ValidSchema(fields) && Accepted(fields, values, input, offset, ends) && k < |fields| && next == k + 1
    ensures |Stored(fields[k], values[k])| <= ends[next] <= |input|
    ensures Says(fields, values, input, k, ends[next] - |Stored(fields[k], values[k])|, ends[next])
  {
    hide StartsAt, ArrayOk, ControlFits, DecodeScalar, EncodeScalar, Representable, OwnCounts, OwnRoles, ValidPlacement;
    assert FieldOk(fields, values, input, offset, k, ends[k], ends[next]);
    assert ValidField(fields, k);
    if fields[k].kind.ScalarKind? {
      if fields[k].condition.Some? {
        FlagRead(fields, values, input, offset, ends, fields[k].condition.value);
      }
      if values[k].Int? {
        ScalarRoundTrip(fields[k].kind.scalar, values[k].v);
      }
    }
  }

  lemma FlagRead(fields: seq<Field>, values: seq<Value>, input: seq<byte>, offset: nat, ends: seq<nat>, f: nat)
    requires ValidSchema(fields) && Accepted(fields, values, input, offset, ends)
    requires f < |fields| && fields[f].kind.FlagKind?
    ensures values[f].Present?
  {
    hide LiesAt, ArrayOk, ControlFits, ValidSchema;
    var next := f + 1;
    assert FieldOk(fields, values, input, offset, f, ends[f], ends[next]);
  }

  // ----- what exact framing refuses -----

  /** The bytes a field needs from its start on, or at least; arrays delimit themselves. */
  function Needed(fields: seq<Field>, env: seq<Value>, k: nat): nat
    requires k < |fields|
  {
    match fields[k].kind
    case ScalarKind(scalar, _, _) => if Suppressed(fields[k], env) then 0 else scalar.width
    case FixedKind(len, _) => len
    case BoundedKind(c) => if c < |env| && env[c].Int? && env[c].v >= 0 then env[c].v else 0
    case _ => 0
  }

  /** The scalar stored at `start` is `raw`. */
  ghost predicate Stores(field: Field, input: seq<byte>, start: nat, raw: int) {
    && field.kind.ScalarKind? && start + field.kind.scalar.width <= |input|
    && raw == DecodeScalar(field.kind.scalar, input[start..start + field.kind.scalar.width])
  }

  /** The start, or its address counted from the outermost input, is no machine word; byte
      fields that follow without a gap need no address. */
  predicate Unaddressable(field: Field, offset: nat, start: nat) {
    start > USIZE_MAX || (offset + start > USIZE_MAX && !((field.kind.BoundedKind? || field.kind.RestKind?) && Plain(field)))
  }

  /** Framing stops at field `k`, which would start at `start`. A shortage names the bytes
      that are missing up to the end of the field, counted from the end of the input. */
  ghost predicate RefusedAt(fields: seq<Field>, env: seq<Value>, input: seq<byte>, offset: nat, k: nat, cursor: nat, start: nat, error: FrameError)
    requires k < |fields|
  {
    && StartsAt(fields[k], env, cursor, start)
    && match error
       case PositionBeforeCursor(j, position, end) => j == k && position == start < end == cursor && start <= USIZE_MAX
       case Shortage(position, additional) =>
         && !fields[k].kind.ArrayKind? && cursor <= start && position == offset + |input|
         && !Unaddressable(fields[k], offset, start) && start + Needed(fields, env, k) <= USIZE_MAX
         && additional > 0 && start + Needed(fields, env, k) == |input| + additional
       case ConversionFailed(j) =>
         && j == k && exists raw ::
              && Stores(fields[k], input, start, raw)
              && ((fields[k].kind.boolean && raw != 0 && raw != 1)
                  || (fields[k].kind.scalar.signed && Controls(fields, k, 0) && !(0 <= raw <= USIZE_MAX)))
       case ConstantDiffers(j) =>
         && j == k && cursor <= start
         && ((exists raw :: Stores(fields[k], input, start, raw) && fields[k].kind.constant.Some? && raw != fields[k].kind.constant.value)
             || (&& fields[k].kind.FixedKind? && fields[k].kind.expected.Some? && start + fields[k].kind.len <= |input|
                 && input[start..start + fields[k].kind.len] != fields[k].kind.expected.value))
       case LayoutUnavailable(j) =>
         && j == k
         && (Unaddressable(fields[k], offset, start) || start + Needed(fields, env, k) > USIZE_MAX
             || (&& fields[k].kind.ArrayKind? && k + 1 < |fields| && !fields[k].kind.item.leading
                 && fields[k].kind.count < |env| && env[fields[k].kind.count] != Int(0))
             || (Controls(fields, k, 0) && exists raw :: Stores(fields[k], input, start, raw) && raw > USIZE_MAX))
       case ArrayFailed(j, source) =>
         && j == k && cursor <= start && fields[k].kind.ArrayKind? && !Unaddressable(fields[k], offset, start)
         && if start > |input| then source == ShortArray(offset + |input|, start - |input|)
            else && k + 1 < |fields| && fields[k].kind.count < |env| && env[fields[k].kind.count].Int? && env[fields[k].kind.count].v >= 0
                 && Delimits(fields[k].kind.item, input[start..], env[fields[k].kind.count].v, offset + start, Err(source))
       case InputTooLong => false
  }

  /** The fields before `k` are accepted and field `k` is refused, for want of a start or at
      its start. */
  ghost predicate StopsAt(fields: seq<Field>, env: seq<Value>, input: seq<byte>, offset: nat, ends: seq<nat>, error: FrameError) {
    && Sound(fields, env, input, offset, ends) && |env| < |fields|
    && var k, cursor := |env|, ends[|env|];
       || (error == LayoutUnavailable(k) && forall start: nat :: !StartsAt(fields[k], env, cursor, start))
       || exists start :: RefusedAt(fields, env, input, offset, k, cursor, start, error)
  }

  lemma EnvPosition(fields: seq<Field>, env: seq<Value>, input: seq<byte>, offset: nat, ends: seq<nat>)
    requires ValidSchema(fields) && Sound(fields, env, input, offset, ends) && |env| < |fields|
    ensures PositionKnown(fields[|env|], env)
  {
    hide ValidSchema, Sound;
    if fields[|env|].placement.AtField? {
      ControllerRead(fields, env, input, offset, ends, |env|, fields[|env|].placement.controller);
    }
  }

  lemma StartStops(fields: seq<Field>, env: seq<Value>, input: seq<byte>, offset: nat, ends: seq<nat>, error: FrameError)
    requires ValidSchema(fields) && Sound(fields, env, input, offset, ends) && |env| < |fields|
    requires StartOf(fields, |env|, env, offset, ends[|env|]) == Err(error)
    ensures StopsAt(fields, env, input, offset, ends, error)
  {
    hide ValidSchema, FieldOk, Place, StartsAt;
    var k, cursor := |env|, ends[|env|];
    EnvPosition(fields, env, input, offset, ends);
    var place := Place(fields[k], env, cursor);
    if place.None? {
      forall start: nat ensures !StartsAt(fields[k], env, cursor, start) {
        PlaceIs(fields[k], env, cursor, start);
      }
    } else {
      PlaceIs(fields[k], env, cursor, place.value);
      assert RefusedAt(fields, env, input, offset, k, cursor, place.value, error);
    }
  }

  lemma FieldStops(fields: seq<Field>, env: seq<Value>, input: seq<byte>, offset: nat, ends: seq<nat>, error: FrameError)
    requires ValidSchema(fields) && Sound(fields, env, input, offset, ends) && |env| < |fields|
    requires FrameField(fields, |env|, env, input, offset, ends[|env|]) == Err(error)
    ensures StopsAt(fields, env, input, offset, ends, error)
  {
    hide ValidSchema, FieldOk, Place, StartsAt, FramePlain, FrameArray, RefusedAt;
    var k, cursor := |env|, ends[|env|];
    var located := StartOf(fields, k, env, offset, cursor);
    if located.Err? {
      StartStops(fields, env, input, offset, ends, error);
    } else {
      EnvPosition(fields, env, input, offset, ends);
      PlaceIs(fields[k], env, cursor, located.value);
      if fields[k].kind.ArrayKind? {
        ArrayStops(fields, env, input, offset, ends, located.value, error);
      } else {
        PlainStops(fields, env, input, offset, ends, located.value, error);
      }
    }
  }

  lemma ArrayStops(fields: seq<Field>, env: seq<Value>, input: seq<byte>, offset: nat, ends: seq<nat>, start: nat, error: FrameError)
    requires ValidSchema(fields) && Sound(fields, env, input, offset, ends) && |env| < |fields| && fields[|env|].kind.ArrayKind?
    requires StartsAt(fields[|env|], env, ends[|env|], start) && ends[|env|] <= start && !Unaddressable(fields[|env|], offset, start)
    requires FrameArray(fields, |env|, Max(IntAt(env, fields[|env|].kind.count), 0), input, offset, start) == Err(error)
    ensures RefusedAt(fields, env, input, offset, |env|, ends[|env|], start, error)
  {
    ControllerRead(fields, env, input, offset, ends, |env|, fields[|env|].kind.count);
    hide ValidSchema, FieldOk, StartsAt, ParentExtent, Delimits, IntAt;
    if start <= |input| {
      ParentDelimits(fields[|env|].kind.item, input[start..], env[fields[|env|].kind.count].v, offset + start);
    }
  }

  lemma PlainStops(fields: seq<Field>, env: seq<Value>, input: seq<byte>, offset: nat, ends: seq<nat>, start: nat, error: FrameError)
    requires ValidSchema(fields) && Sound(fields, env, input, offset, ends) && |env| < |fields| && !fields[|env|].kind.ArrayKind?
    requires StartsAt(fields[|env|], env, ends[|env|], start) && ends[|env|] <= start && !Unaddressable(fields[|env|], offset, start)
    requires FramePlain(fields, |env|, env, input, offset, start) == Err(error)
    ensures RefusedAt(fields, env, input, offset, |env|, ends[|env|], start, error)
  {
    var k := |env|;
    if fields[k].kind.BoundedKind? {
      ControllerRead(fields, env, input, offset, ends, k, fields[k].kind.length);
    }
    hide ValidSchema, FieldOk, StartsAt, Controls, DecodeScalar, IntAt, FrameScalar, Delimits, Suppressed;
    match fields[k].kind
    case ScalarKind(_, _, _) => ScalarStops(fields, env, input, offset, k, ends[k], start, error);
    case FixedKind(_, _) =>
    case BoundedKind(_) =>
    case RestKind =>
    case FlagKind(_) =>
  }

  lemma ScalarStops(fields: seq<Field>, env: seq<Value>, input: seq<byte>, offset: nat, k: nat, cursor: nat, start: nat, error: FrameError)
    requires k < |fields| && fields[k].kind.ScalarKind? && offset + |input| <= USIZE_MAX
    requires !Suppressed(fields[k], env) && !Unaddressable(fields[k], offset, start)
    requires StartsAt(fields[k], env, cursor, start) && cursor <= start && FrameScalar(fields, k, input, offset, start) == Err(error)
    ensures RefusedAt(fields, env, input, offset, k, cursor, start, error)
  {
    hide StartsAt, Controls, DecodeScalar, Suppressed, Delimits;
    var scalar := fields[k].kind.scalar;
    if start + scalar.width <= |input| {
      ScalarMeans(scalar, input[start..start + scalar.width]);
      assert Stores(fields[k], input, start, DecodeScalar(scalar, input[start..start + scalar.width]));
    }
  }

  lemma {:induction false} FrameStopsFrom(fields: seq<Field>, env: seq<Value>, input: seq<byte>, offset: nat, ends: seq<nat>)
    returns (values: seq<Value>, all: seq<nat>)
    requires |env| <= |fields| && ValidSchema(fields) && Sound(fields, env, input, offset, ends)
    requires FrameFrom(fields, env, input, offset, ends[|env|]).Err?
    ensures StopsAt(fields, values, input, offset, all, FrameFrom(fields, env, input, offset, ends[|env|]).error)
    decreases |fields| - |env|
  {
    hide ValidSchema, FieldOk, FrameField, Adds, StopsAt;
    var framed := FrameField(fields, |env|, env, input, offset, ends[|env|]);
    if framed.Err? {
      FieldStops(fields, env, input, offset, ends, framed.error);
      values, all := env, ends;
    } else {
      FieldAdds(fields, |env|, env, input, offset, ends, framed.value);
      SoundMore(fields, |env|, env, input, offset, ends, framed.value);
      values, all := FrameStopsFrom(fields, env + [framed.value.value], input, offset, ends + [framed.value.end]);
    }
  }

  /** Exact framing that fails has accepted the fields before the one it names, and refuses
      that one for the reason it gives. */
  lemma FrameRefuses(fields: seq<Field>, input: seq<byte>, offset: nat)
    requires ValidSchema(fields) && FrameExactly(fields, input, offset).Err?
    ensures var error := FrameExactly(fields, input, offset).error;
            if offset + |input| > USIZE_MAX then error == InputTooLong
            else exists env, ends :: StopsAt(fields, env, input, offset, ends, error)
  {
    hide StopsAt, ValidSchema;
    if offset + |input| <= USIZE_MAX {
      assert Sound(fields, [], input, offset, [0]);
      var env, ends := FrameStopsFrom(fields, [], input, offset, [0]);
    }
  }

  // ----- reading what was laid out -----

  /** Every array that other fields follow is empty or made of items that can be
      delimited; otherwise framing cannot find the next field. */
  ghost predicate Delimited(fields: seq<Field>, values: seq<Value>, k: nat)
    requires k < |fields| && k < |values|
  {
    fields[k].kind.ArrayKind? && k + 1 < |fields| ==>
      values[k].Counted? && (values[k].count == 0 || fields[k].kind.item.leading)
  }

  /** Consistent values, items included, that lie in an input. */
  ghost predicate LaidSchema(fields: seq<Field>, values: seq<Value>, input: seq<byte>, offset: nat, ends: seq<nat>) {
    && ValidSchema(fields) && LeadingItems(fields) && AllConsistent(fields, values)
    && LieIn(fields, values, input, ends) && offset + |input| <= USIZE_MAX
    && (fields != [] ==> TailReached(fields, input, |fields| - 1, ends[|fields|]))
  }

  /** A controller's value is no larger than the bytes it lays out. */
  lemma ControllerFits(fields: seq<Field>, values: seq<Value>, input: seq<byte>, offset: nat, ends: seq<nat>, c: nat)
    requires LaidSchema(fields, values, input, offset, ends) && c < |fields|
    ensures ControlFits(fields, values, c)
  {
    hide Emitted, OwnCounts, OwnRoles, Controls, Stored, LeadingItems;
    if Controls(fields, c, 0) {
      var k := SomeRole(fields, c, 0);
      var next := k + 1;
      assert ValidField(fields, k) && Consistent(fields, values, k) && Consistent(fields, values, c);
      assert LiesAt(fields, values, input, k, ends[k], ends[next]);
      StoredBytes(fields[k], values[k]);
      if CountsBy(fields[k], c) {
        var items :| Emitted(fields[k].kind.item, values[k].span, items, values[k].count);
        CountFits(fields[k].kind.item, values[k].span, items, values[k].count);
      }
    }
  }

  lemma CountFits(item: Item, span: seq<byte>, items: seq<seq<byte>>, count: nat)
    requires Emitted(item, span, items, count)
    ensures count <= |span|
  {
    FixedItems(item, items);
  }

  /** A parent delimits the items that follow it. */
  lemma EmittedDelimits(item: Item, span: seq<byte>, count: nat, items: seq<seq<byte>>, rest: seq<byte>, offset: nat)
    requires Emitted(item, span, items, count) && offset + |span| <= USIZE_MAX
    requires Walkable(item) && (count > 0 ==> item.leading)
    ensures Delimits(item, span + rest, count, offset, Ok(|span|))
  {
    hide LeadingItem, Traversal, Extent, GoodItem, Delimits;
    ParentDelimits(item, span + rest, count, offset);
    FixedItems(item, items);
    if item.fixed.None? {
      if count > 0 {
        ParentExtentOfItems(item, items, rest, offset);
      } else {
        TraversalEnds(item, span + rest, 0, offset, 0);
      }
    }
  }

  /** Consistent values that lie in an input are accepted, field by field, unless an array
      cannot be delimited. */
  lemma ConsistentOk(fields: seq<Field>, values: seq<Value>, input: seq<byte>, offset: nat, ends: seq<nat>, k: nat, next: nat)
    requires LaidSchema(fields, values, input, offset, ends) && k < |fields| && next == k + 1 && Delimited(fields, values, k)
    ensures FieldOk(fields, values, input, offset, k, ends[k], ends[next])
  {
    hide Stored, StartsAt, ValidSchema, Delimits, Walkable, Emitted, Representable, ControlFits;
    ControllerFits(fields, values, input, offset, ends, k);
    assert Consistent(fields, values, k);
    assert LiesAt(fields, values, input, k, ends[k], ends[next]);
    if fields[k].kind.ArrayKind? && k + 1 < |fields| {
      var Counted(span, count) := values[k];
      var items :| Emitted(fields[k].kind.item, span, items, count);
      StoredBytes(fields[k], values[k]);
      var start := ends[next] - |span|;
      EmittedDelimits(fields[k].kind.item, span, count, items, input[ends[next]..], offset + start);
      assert input[start..] == span + input[ends[next]..];
    }
  }

  /** Framing reads each laid-out field and stops where the field ends; it fails only at
      an array that cannot be delimited. */
  lemma FieldReads(fields: seq<Field>, values: seq<Value>, k: nat, input: seq<byte>, offset: nat, ends: seq<nat>, next: nat)
    requires LaidSchema(fields, values, input, offset, ends) && k < |fields| && next == k + 1
    ensures FrameField(fields, k, values[..k], input, offset, ends[k])
         == if Delimited(fields, values, k) then Ok(Framed(values[k], ends[next])) else Err(LayoutUnavailable(k))
  {
    hide FrameField, FieldOk, ValidSchema, LiesAt, LeadingItems;
    assert LiesAt(fields, values, input, k, ends[k], ends[next]);
    if Delimited(fields, values, k) {
      ConsistentOk(fields, values, input, offset, ends, k, next);
      FieldAccepted(fields, values, k, input, offset, ends[k], ends[next]);
    } else {
      assert Consistent(fields, values, k);
      BlockedReads(fields, values, k, input, offset, ends[k], ends[next]);
    }
  }

  /** Items that take all they are given leave no place for the next field. */
  lemma BlockedReads(fields: seq<Field>, values: seq<Value>, k: nat, input: seq<byte>, offset: nat, cursor: nat, end: nat)
    requires ValidSchema(fields) && k < |fields| == |values| && offset + |input| <= USIZE_MAX
    requires LiesAt(fields, values, input, k, cursor, end) && Consistent(fields, values, k) && !Delimited(fields, values, k)
    ensures FrameField(fields, k, values[..k], input, offset, cursor) == Err(LayoutUnavailable(k))
  {
    hide Place, Stored, StartsAt, StartOf, Emitted, Suppressed;
    LaidOut(fields, values, k, input, cursor, end);
    StartReads(fields, values, k, offset, input, cursor, end - |Stored(fields[k], values[k])|, end);
    assert ValidField(fields, k);
    IntBefore(values, k, fields[k].kind.count);
  }

  /** What reading the fields from `k` on gives. */
  ghost function Reading(fields: seq<Field>, values: seq<Value>, k: nat, end: nat): Result<(seq<Value>, nat), FrameError>
    requires k <= |fields| == |values|
    decreases |fields| - k
  {
    if k == |fields| then Ok((values, end))
    else if Delimited(fields, values, k) then Reading(fields, values, k + 1, end)
    else Err(LayoutUnavailable(k))
  }

  lemma {:induction false} FieldsRead(fields: seq<Field>, values: seq<Value>, k: nat, input: seq<byte>, offset: nat, ends: seq<nat>)
    requires LaidSchema(fields, values, input, offset, ends) && k <= |fields|
    ensures FrameFrom(fields, values[..k], input, offset, ends[k]) == Reading(fields, values, k, ends[|fields|])
    decreases |fields| - k
  {
    hide FrameField, LaidSchema, Delimited;
    LaidLength(fields, values, input, offset, ends);
    if k < |fields| {
      FieldReads(fields, values, k, input, offset, ends, k + 1);
      FieldsRead(fields, values, k + 1, input, offset, ends);
      assert values[..k] + [values[k]] == values[..k + 1];
    } else {
      assert values[..k] == values;
    }
  }

  lemma LaidLength(fields: seq<Field>, values: seq<Value>, input: seq<byte>, offset: nat, ends: seq<nat>)
    requires LaidSchema(fields, values, input, offset, ends)
    ensures |values| == |fields| && |ends| == |fields| + 1 && ends[0] == 0
  {
  }

  lemma {:induction false} ReadingOk(fields: seq<Field>, values: seq<Value>, k: nat, end: nat)
    requires k <= |fields| == |values|
    ensures Reading(fields, values, k, end).Ok? ==> Reading(fields, values, k, end).value == (values, end)
    ensures Reading(fields, values, k, end).Ok? <==> forall j :: k <= j < |fields| ==> Delimited(fields, values, j)
    ensures Reading(fields, values, k, end).Err? ==>
              exists j :: FirstBlocked(fields, values, k, j) && Reading(fields, values, k, end) == Err(LayoutUnavailable(j))
    decreases |fields| - k
  {
    hide Delimited;
    if k < |fields| {
      ReadingOk(fields, values, k + 1, end);
      if Delimited(fields, values, k) {
        if Reading(fields, values, k + 1, end).Err? {
          var j :| FirstBlocked(fields, values, k + 1, j) && Reading(fields, values, k + 1, end) == Err(LayoutUnavailable(j));
          assert FirstBlocked(fields, values, k, j);
        }
      } else {
        assert FirstBlocked(fields, values, k, k);
      }
    }
  }

  /** Field `j` is the first from `k` on that framing cannot delimit. */
  ghost predicate FirstBlocked(fields: seq<Field>, values: seq<Value>, k: nat, j: nat)
    requires |fields| == |values|
  {
    k <= j < |fields| && !Delimited(fields, values, j) && forall i :: k <= i < j ==> Delimited(fields, values, i)
  }

  /** Exact framing finds the fields: whatever lies in the gaps and after the last field, it
      recovers every value and stops where the last field ends, unless an array that other
      fields follow holds items without a leading extent. */
  lemma FrameFinds(fields: seq<Field>, values: seq<Value>, input: seq<byte>, offset: nat, ends: seq<nat>)
    requires LaidSchema(fields, values, input, offset, ends)
    ensures |values| == |fields| && |ends| == |fields| + 1
    ensures var r := FrameExactly(fields, input, offset);
            && (r.Ok? ==> r.value == (values, ends[|fields|]))
            && (r.Ok? <==> forall k :: 0 <= k < |fields| ==> Delimited(fields, values, k))
            && (r.Err? ==> exists j :: FirstBlocked(fields, values, 0, j) && r == Err(LayoutUnavailable(j)))
  {
    LaidLength(fields, values, input, offset, ends);
    FieldsRead(fields, values, 0, input, offset, ends);
    ReadingOk(fields, values, 0, ends[|fields|]);
  }

  /** Exact framing inverts the layout: it recovers every value and consumes every byte,
      under the same condition. */
  lemma FrameInvertsLayout(fields: seq<Field>, values: seq<Value>, region: seq<byte>, offset: nat)
    requires ValidSchema(fields) && LeadingItems(fields) && AllConsistent(fields, values)
    requires Emit(fields, values, |fields|) == Some(region) && offset + |region| <= USIZE_MAX
    ensures var r := FrameExactly(fields, region, offset);
            && (r.Ok? ==> r.value == (values, |region|))
            && (r.Ok? <==> forall k :: 0 <= k < |fields| ==> Delimited(fields, values, k))
            && (r.Err? ==> exists j :: FirstBlocked(fields, values, 0, j) && r == Err(LayoutUnavailable(j)))
  {
    hide LiesAt, GapsZero, Emit, ValidSchema, LeadingItems, Delimited, FrameExactly;
    ConsistentPositions(fields, values);
    LayoutIs(fields, values, region);
    var ends :| LieIn(fields, values, region, ends) && GapsZero(fields, values, region, ends) && ends[|fields|] == |region|;
    FrameFinds(fields, values, region, offset, ends);
  }

  /** A recovered array yields, one by one, the items it was written from. */
  lemma ArrayItemsReadBack(fields: seq<Field>, values: seq<Value>, k: nat, items: seq<seq<byte>>, offset: nat)
    requires k < |fields| && k < |values| && fields[k].kind.ArrayKind? && values[k].Counted?
    requires LeadingItem(fields[k].kind.item)
    requires Emitted(fields[k].kind.item, values[k].span, items, values[k].count) && offset + |values[k].span| <= USIZE_MAX
    ensures var steps := Traversal(fields[k].kind.item, values[k].span, values[k].count, offset, 0, 0);
            Clean(steps) && Pieces(steps, values[k].span) == items
  {
    EmittedReadsBack(fields[k].kind.item, values[k].span, items, values[k].count, offset);
  }
}
