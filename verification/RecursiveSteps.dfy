/** The generated step form of every recursive body: where a body starts, how it
    resumes after a child, and the small continuation carried in between. */
module RecursiveSteps {
  import opened Base
  import opened Errors
  import opened Grammar

  /** Counted arrays and objects carry a `u32`; demand bodies pack their state. */
  datatype Continuation = Counter(n: nat) | Packed(bytes: seq<byte>)

  datatype Step = Done(advance: nat) | Child(advance: nat, continuation: Continuation)

  type StepResult = Result<Step, RecursiveError>

  const USIZE_BYTES := 8

  // ----- packed demand continuations -----

  function AfterLeft(body: Body, controller: nat, bodyStart: nat): Continuation
    requires body.DemandBody?
  {
    Packed([1] + LittleBytes(controller, body.controller.width)
           + (if body.align.Some? then LittleBytes(bodyStart, USIZE_BYTES) else []))
  }

  function AfterRight(body: Body): Continuation
    requires body.DemandBody?
  {
    Packed([2] + Zeros(body.controller.width) + (if body.align.Some? then Zeros(USIZE_BYTES) else []))
  }

  function PackedWidth(body: Body): nat
    requires body.DemandBody?
  {
    1 + body.controller.width + (if body.align.Some? then USIZE_BYTES else 0)
  }

  function ResumeTag(bytes: seq<byte>): nat
    requires |bytes| > 0
  {
    bytes[0]
  }

  function PackedController(body: Body, bytes: seq<byte>): nat
    requires body.DemandBody? && |bytes| == PackedWidth(body)
  {
    LittleValue(bytes[1..1 + body.controller.width])
  }

  function PackedBodyStart(body: Body, bytes: seq<byte>): nat
    requires body.DemandBody? && |bytes| == PackedWidth(body)
  {
    LittleValue(bytes[1 + body.controller.width..])
  }

  /** What is packed after the left child is what is read back on resumption. */
  lemma PackedRoundTrip(body: Body, controller: nat, bodyStart: nat)
    requires body.DemandBody? && controller < Pow256(body.controller.width) && bodyStart <= USIZE_MAX
    ensures var bytes := AfterLeft(body, controller, bodyStart).bytes;
            && |bytes| == PackedWidth(body)
            && ResumeTag(bytes) == 1
            && PackedController(body, bytes) == controller
            && (body.align.Some? ==> PackedBodyStart(body, bytes) == bodyStart)
  {
    var w := body.controller.width;
    var bytes := AfterLeft(body, controller, bodyStart).bytes;
    assert bytes[1..1 + w] == LittleBytes(controller, w);
    LittleRoundTrip(controller, w);
    if body.align.Some? {
      assert bytes[1 + w..] == LittleBytes(bodyStart, USIZE_BYTES);
      assert Pow256(USIZE_BYTES) == USIZE_MAX + 1 by {
        assert Pow256(4) == 0x1_0000_0000;
        assert Pow256(8) == 256 * 256 * 256 * 256 * Pow256(4);
      }
      LittleRoundTrip(bodyStart, USIZE_BYTES);
    }
  }

  // ----- object transitions -----

  function FieldWidth(field: ObjectField): nat
    requires !field.RecursiveField?
  {
    if field.ScalarField? then field.scalar.width else field.width
  }

  /** Index of the first recursive field at or after `start`, or the field count. */
  function NextRecursive(fields: seq<ObjectField>, start: nat): (next: nat)
    requires start <= |fields|
    ensures start <= next <= |fields|
    ensures next < |fields| ==> fields[next].RecursiveField?
    ensures forall i :: start <= i < next ==> !fields[i].RecursiveField?
    decreases |fields| - start
  {
    if start == |fields| || fields[start].RecursiveField? then start else NextRecursive(fields, start + 1)
  }

  function SegmentWidth(fields: seq<ObjectField>, start: nat, end: nat): nat
    requires start <= end <= |fields|
    requires forall i :: start <= i < end ==> !fields[i].RecursiveField?
    decreases end - start
  {
    if start == end then 0 else FieldWidth(fields[start]) + SegmentWidth(fields, start + 1, end)
  }

  /** Number of recursive fields before `index`. */
  function RecursiveOrdinal(fields: seq<ObjectField>, index: nat): (n: nat)
    requires index <= |fields|
    ensures n <= index
  {
    if index == 0 then 0
    else RecursiveOrdinal(fields, index - 1) + (if fields[index - 1].RecursiveField? then 1 else 0)
  }

  /** Index of the recursive field with the given ordinal, at or after `from`. */
  function RecursivePosition(fields: seq<ObjectField>, ordinal: nat, from: nat): (index: Option<nat>)
    requires from <= |fields|
    ensures index.Some? ==> from <= index.value < |fields| && fields[index.value].RecursiveField?
    decreases |fields| - from
  {
    if from == |fields| then None
    else if !fields[from].RecursiveField? then RecursivePosition(fields, ordinal, from + 1)
    else if ordinal == 0 then Some(from)
    else RecursivePosition(fields, ordinal - 1, from + 1)
  }

  lemma {:induction false} PositionOfOrdinal(fields: seq<ObjectField>, index: nat, from: nat)
    requires from <= index < |fields| && fields[index].RecursiveField?
    ensures RecursiveOrdinal(fields, from) <= RecursiveOrdinal(fields, index)
    ensures RecursivePosition(fields, RecursiveOrdinal(fields, index) - RecursiveOrdinal(fields, from), from) == Some(index)
    decreases index - from
  {
    if from < index {
      PositionOfOrdinal(fields, index, from + 1);
    }
  }

  /** Skips the fixed fields from `start` up to the next recursive field or the end. */
  function Transition(fields: seq<ObjectField>, start: nat, input: seq<byte>, at: nat): StepResult
    requires start <= |fields|
  {
    var next := NextRecursive(fields, start);
    var advance := SegmentWidth(fields, start, next);
    if advance > USIZE_MAX then Err(Layout)
    else if |input| < advance then Err(NeedMore(SaturatingAdd(at, |input|), advance - |input|))
    else if next < |fields| then Ok(Step.Child(advance, Counter(RecursiveOrdinal(fields, next) + 1)))
    else Ok(Done(advance))
  }

  // ----- start and resume -----

  predicate IsRecursive(body: Body) {
    body.ArrayBody? || body.ObjectBody? || body.DemandBody?
  }

  function RecursiveStart(body: Body, input: seq<byte>, at: nat): StepResult
    requires IsRecursive(body)
  {
    match body
    case ArrayBody(count) =>
      if |input| < count.width then Err(NeedMore(SaturatingAdd(at, |input|), count.width - |input|))
      else
        var raw := DecodeScalar(count, input[..count.width]);
        if !(0 <= raw <= U32_MAX) then Err(if count.signed then RecursiveError.Child(at) else Layout)
        else if raw == 0 then Ok(Done(count.width))
        else Ok(Step.Child(count.width, Counter(raw)))
    case ObjectBody(fields) => Transition(fields, 0, input, at)
    case DemandBody(controller, _, _, _) =>
      if |input| < controller.width then Err(NeedMore(SaturatingAdd(at, |input|), controller.width - |input|))
      else Ok(Step.Child(controller.width,
                    AfterLeft(body, DecodeUnsigned(controller.endian, input[..controller.width]), at)))
  }

  function RecursiveResume(body: Body, input: seq<byte>, at: nat, continuation: Continuation): StepResult
    requires IsRecursive(body) && MatchesBody(body, continuation)
  {
    match body
    case ArrayBody(_) =>
      if continuation.n == 0 then Err(Layout)
      else if continuation.n == 1 then Ok(Done(0))
      else Ok(Step.Child(0, Counter(continuation.n - 1)))
    case ObjectBody(fields) =>
      var index := if continuation.n == 0 then None else RecursivePosition(fields, continuation.n - 1, 0);
      if index.None? then Err(Layout) else Transition(fields, index.value + 1, input, at)
    case DemandBody(_, _, _, _) =>
      var tag := ResumeTag(continuation.bytes);
      if tag == 1 then ResumeDemand(body, input, at, continuation.bytes)
      else if tag == 2 then Ok(Done(0))
      else Err(Layout)
  }

  /** Each grammar resumes only its own continuation type. */
  predicate MatchesBody(body: Body, continuation: Continuation) {
    if body.DemandBody? then continuation.Packed? && |continuation.bytes| == PackedWidth(body)
    else continuation.Counter?
  }

  /** Past the raw bytes and the placed scalar, up to the right child. */
  function ResumeDemand(body: Body, input: seq<byte>, at: nat, bytes: seq<byte>): StepResult
    requires body.DemandBody? && |bytes| == PackedWidth(body)
  {
    var extent := PackedController(body, bytes);
    var start := ResumePosition(body, at, extent, bytes);
    if extent > USIZE_MAX || start.None? then Err(Layout)
    else
      var advance := start.value - at + body.scalar.width;
      if advance > USIZE_MAX then Err(Layout)
      else if |input| < advance then Err(NeedMore(SaturatingAdd(at, |input|), advance - |input|))
      else Ok(Step.Child(advance, AfterRight(body)))
  }

  /** Absolute scalar position; alignment is counted from the packed body start. */
  function ResumePosition(body: Body, at: nat, extent: nat, bytes: seq<byte>): (r: Option<nat>)
    requires body.DemandBody? && |bytes| == PackedWidth(body)
    ensures r.Some? ==> at <= r.value
  {
    if at + extent > USIZE_MAX then None
    else if body.align.None? then CheckedAdd(at + extent, body.pad)
    else
      var origin := PackedBodyStart(body, bytes);
      if at + extent < origin || at + extent - origin + body.pad > USIZE_MAX then None
      else
        var relative := CheckedAlign(at + extent - origin + body.pad, body.align.value);
        if relative.None? then None else CheckedAdd(origin, relative.value)
  }
}
