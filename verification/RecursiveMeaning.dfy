/** What a continuation stands for: the part of the reference reading that is still
    to be done, and what walking it leaves of the trace. Every step of a body is proved
    to preserve both. */
module RecursiveMeaning {
  import opened Base
  import opened Errors
  import opened Grammar
  import opened RecursiveSteps
  import opened RecursiveSignature

  /** What reading something from an input takes, and the trace after it. */
  datatype Span = NoSpan | Span(end: nat, trace: Trace)

  /** Adds bytes consumed earlier to a span. */
  ghost function Plus(w: nat, span: Span): Span {
    if span.Span? then span.(end := w + span.end) else NoSpan
  }

  ghost function RootSpan(p: Parsed<Tree>, level: nat, t: Trace): Span {
    if p.Parsed? then Span(p.end, RootTrace(p.value, level, t)) else NoSpan
  }

  ghost function BodySpan(p: Parsed<BodyTree>, level: nat, t: Trace): Span {
    if p.Parsed? then Span(p.end, BodyTrace(p.value, level, t)) else NoSpan
  }

  ghost function ItemsSpan(p: Parsed<seq<Tree>>, level: nat, t: Trace): Span {
    if p.Parsed? then Span(p.end, ItemsTrace(p.value, level, t)) else NoSpan
  }

  ghost function PartsSpan(p: Parsed<seq<Part>>, level: nat, t: Trace): Span {
    if p.Parsed? then Span(p.end, PartsTrace(p.value, level, t)) else NoSpan
  }

  ghost function TailSpan(p: Parsed<DemandTail>, level: nat, t: Trace): Span {
    if p.Parsed? then Span(p.end, ChildTrace(p.value.right, level, t)) else NoSpan
  }

  /** What remains of a body after one of its children ended at `input`. Children are
      at `level`. */
  ghost function ResumeSpan(g: Grammar, body: Body, continuation: Continuation, input: seq<byte>, at: nat, depth: nat, level: nat, t: Trace)
    : (r: Span)
    requires IsRecursive(body) && MatchesBody(body, continuation)
    ensures r.Span? ==> r.end <= |input|
  {
    match body
    case ArrayBody(_) =>
      if continuation.n == 0 then NoSpan else ItemsSpan(ParseItems(g, continuation.n - 1, input, at, depth), level, t)
    case ObjectBody(fields) =>
      var index := if continuation.n == 0 then None else RecursivePosition(fields, continuation.n - 1, 0);
      if index.None? then NoSpan else PartsSpan(ParseFields(g, fields[index.value + 1..], input, at, depth), level, t)
    case DemandBody(_, _, _, _) =>
      var tag := ResumeTag(continuation.bytes);
      if tag == 1 then
        TailSpan(ParseDemandTail(g, body, PackedController(body, continuation.bytes), Behind(body, continuation, at), input, at, depth), level, t)
      else if tag == 2 then Span(0, t)
      else NoSpan
  }

  /** Bytes of the body already consumed, as far as placement needs to know. */
  ghost function Behind(body: Body, continuation: Continuation, at: nat): nat
    requires body.DemandBody? && MatchesBody(body, continuation)
  {
    if body.align.None? || PackedBodyStart(body, continuation.bytes) > at then 0
    else at - PackedBodyStart(body, continuation.bytes)
  }

  /** A packed body start is never ahead of the cursor. */
  ghost predicate Fits(body: Body, continuation: Continuation, at: nat) {
    && IsRecursive(body)
    && MatchesBody(body, continuation)
    && (body.DemandBody? && body.align.Some? ==> PackedBodyStart(body, continuation.bytes) <= at)
  }

  /** From a step to one child: the child root, then the resumed body. */
  ghost function ChildThenResume(g: Grammar, body: Body, continuation: Continuation, advance: nat,
                                 input: seq<byte>, at: nat, depth: nat, level: nat, t: Trace): Span
    requires advance <= |input| && IsRecursive(body) && MatchesBody(body, continuation)
  {
    match ParseRoot(g, input[advance..], at + advance, depth)
    case NoParse => NoSpan
    case Parsed(child, n) =>
      Plus(advance + n, ResumeSpan(g, body, continuation, input[advance + n..], at + advance + n, depth, level, ChildTrace(child, level, t)))
  }

  /** A step agrees with the span that the reference reading gives to what it starts. */
  ghost predicate StepAgrees(g: Grammar, body: Body, step: StepResult, span: Span,
                             input: seq<byte>, at: nat, depth: nat, level: nat, t: Trace)
  {
    match step
    case Err(_) => span == NoSpan
    case Ok(Done(advance)) => span == Span(advance, t)
    case Ok(Child(advance, continuation)) =>
      && advance <= |input|
      && Fits(body, continuation, at)
      && span == ChildThenResume(g, body, continuation, advance, input, at, depth, level, t)
  }

  // ----- arrays -----

  lemma ArrayStartAgrees(g: Grammar, body: Body, input: seq<byte>, at: nat, depth: nat, level: nat, t: Trace)
    requires body.ArrayBody?
    ensures StepAgrees(g, body, RecursiveStart(body, input, at), BodySpan(ParseBody(g, body, input, at, depth), level, t), input, at, depth, level, t)
  {
    var w := body.count.width;
    if |input| >= w {
      var raw := DecodeScalar(body.count, input[..w]);
      if 0 < raw <= U32_MAX {
        ItemsAgree(g, body, raw, w, input, at, depth, level, t);
      }
    }
  }

  /** Reading `n` items after `advance` bytes is one child, then the resumed counter. */
  lemma ItemsAgree(g: Grammar, body: Body, n: nat, advance: nat, input: seq<byte>, at: nat, depth: nat, level: nat, t: Trace)
    requires body.ArrayBody? && n > 0 && advance <= |input|
    ensures ChildThenResume(g, body, Counter(n), advance, input, at, depth, level, t) ==
              Plus(advance, ItemsSpan(ParseItems(g, n, input[advance..], at + advance, depth), level, t))
  {
    match ParseRoot(g, input[advance..], at + advance, depth)
    case NoParse =>
    case Parsed(_, end) => assert input[advance..][end..] == input[advance + end..];
  }

  lemma ArrayResumeAgrees(g: Grammar, body: Body, continuation: Continuation, input: seq<byte>, at: nat, depth: nat, level: nat, t: Trace)
    requires body.ArrayBody? && continuation.Counter?
    ensures StepAgrees(g, body, RecursiveResume(body, input, at, continuation),
                       ResumeSpan(g, body, continuation, input, at, depth, level, t), input, at, depth, level, t)
  {
    if continuation.n >= 2 {
      ItemsAgree(g, body, continuation.n - 1, 0, input, at, depth, level, t);
      assert input[0..] == input;
    }
  }

  // ----- objects -----

  lemma ChildThenResumeShift(g: Grammar, body: Body, continuation: Continuation, w: nat, advance: nat,
                             input: seq<byte>, at: nat, depth: nat, level: nat, t: Trace)
    requires w + advance <= |input| && IsRecursive(body) && MatchesBody(body, continuation)
    ensures ChildThenResume(g, body, continuation, w + advance, input, at, depth, level, t) ==
              Plus(w, ChildThenResume(g, body, continuation, advance, input[w..], at + w, depth, level, t))
  {
    hide ParseRoot, ResumeSpan;
    assert input[w..][advance..] == input[w + advance..];
    match ParseRoot(g, input[w + advance..], at + w + advance, depth)
    case NoParse =>
    case Parsed(_, n) => assert input[w..][advance + n..] == input[w + advance + n..];
  }

  /** A run of fixed fields and the child after it. */
  lemma {:induction false} TransitionAgrees(g: Grammar, body: Body, start: nat, input: seq<byte>, at: nat, depth: nat, level: nat, t: Trace)
    requires body.ObjectBody? && start <= |body.fields| && at + |input| <= USIZE_MAX
    ensures StepAgrees(g, body, Transition(body.fields, start, input, at),
                       PartsSpan(ParseFields(g, body.fields[start..], input, at, depth), level, t), input, at, depth, level, t)
    decreases |body.fields| - start
  {
    var fields := body.fields;
    if start < |fields| {
      assert fields[start..][1..] == fields[start + 1..];
      if fields[start].RecursiveField? {
        ChildFieldAgrees(g, body, start, input, at, depth, level, t);
      } else if |input| >= FieldWidth(fields[start]) {
        var w := FieldWidth(fields[start]);
        TransitionAgrees(g, body, start + 1, input[w..], at + w, depth, level, t);
        FixedFieldAgrees(g, body, start, input, at, depth, level, t);
      }
    }
  }

  /** The first field, then the others. */
  lemma FieldsSpan(g: Grammar, fields: seq<ObjectField>, input: seq<byte>, at: nat, depth: nat, level: nat, t: Trace)
    requires |fields| > 0
    ensures PartsSpan(ParseFields(g, fields, input, at, depth), level, t) ==
              match ParseField(g, fields[0], input, at, depth)
              case NoParse => NoSpan
              case Parsed(part, end) =>
                Plus(end, PartsSpan(ParseFields(g, fields[1..], input[end..], at + end, depth), level, PartTrace(part, level, t)))
  {
    hide ParseField;
    match ParseField(g, fields[0], input, at, depth)
    case NoParse =>
    case Parsed(part, end) =>
      match ParseFields(g, fields[1..], input[end..], at + end, depth)
      case NoParse =>
      case Parsed(parts, _) => assert ([part] + parts)[1..] == parts;
  }

  lemma ChildFieldAgrees(g: Grammar, body: Body, start: nat, input: seq<byte>, at: nat, depth: nat, level: nat, t: Trace)
    requires body.ObjectBody? && start < |body.fields| && body.fields[start].RecursiveField?
    ensures StepAgrees(g, body, Transition(body.fields, start, input, at),
                       PartsSpan(ParseFields(g, body.fields[start..], input, at, depth), level, t), input, at, depth, level, t)
  {
    hide ParseRoot, ParseFields, PartsSpan, ChildTrace, DecodeScalar;
    assert body.fields[start..][1..] == body.fields[start + 1..];
    FieldsSpan(g, body.fields[start..], input, at, depth, level, t);
    PositionOfOrdinal(body.fields, start, 0);
    assert input[0..] == input;
  }

  /** A step after `w` consumed bytes is the step on the rest, further advanced. */
  ghost predicate StepShifted(w: nat, step: StepResult, rest: StepResult) {
    match (step, rest)
    case (Ok(Done(a)), Ok(Done(b))) => a == w + b
    case (Ok(Child(a, c)), Ok(Child(b, d))) => a == w + b && c == d && c.Counter?
    case (Err(_), Err(_)) => true
    case _ => false
  }

  lemma StepShift(g: Grammar, body: Body, w: nat, step: StepResult, rest: StepResult, span: Span,
                  input: seq<byte>, at: nat, depth: nat, level: nat, t: Trace)
    requires body.ObjectBody? && w <= |input| && StepShifted(w, step, rest)
    requires StepAgrees(g, body, rest, span, input[w..], at + w, depth, level, t)
    ensures StepAgrees(g, body, step, Plus(w, span), input, at, depth, level, t)
  {
    match rest
    case Err(_) =>
    case Ok(Done(_)) =>
    case Ok(Child(advance, continuation)) =>
      ChildThenResumeShift(g, body, continuation, w, advance, input, at, depth, level, t);
  }

  lemma TransitionShift(fields: seq<ObjectField>, start: nat, input: seq<byte>, at: nat)
    requires start < |fields| && !fields[start].RecursiveField?
    requires at + |input| <= USIZE_MAX && FieldWidth(fields[start]) <= |input|
    ensures var w := FieldWidth(fields[start]);
            StepShifted(w, Transition(fields, start, input, at), Transition(fields, start + 1, input[w..], at + w))
  {
  }

  lemma FixedFieldSpan(g: Grammar, fields: seq<ObjectField>, input: seq<byte>, at: nat, depth: nat, level: nat, t: Trace)
    requires |fields| > 0 && !fields[0].RecursiveField? && FieldWidth(fields[0]) <= |input|
    ensures var w := FieldWidth(fields[0]);
            PartsSpan(ParseFields(g, fields, input, at, depth), level, t) ==
              Plus(w, PartsSpan(ParseFields(g, fields[1..], input[w..], at + w, depth), level, t))
  {
    FieldsSpan(g, fields, input, at, depth, level, t);
    hide ParseFields;
  }

  /** Consuming one fixed field first only shortens the advance. */
  lemma FixedFieldAgrees(g: Grammar, body: Body, start: nat, input: seq<byte>, at: nat, depth: nat, level: nat, t: Trace)
    requires body.ObjectBody? && start < |body.fields| && !body.fields[start].RecursiveField?
    requires at + |input| <= USIZE_MAX && FieldWidth(body.fields[start]) <= |input|
    requires var w := FieldWidth(body.fields[start]);
             StepAgrees(g, body, Transition(body.fields, start + 1, input[w..], at + w),
                        PartsSpan(ParseFields(g, body.fields[start + 1..], input[w..], at + w, depth), level, t), input[w..], at + w, depth, level, t)
    ensures StepAgrees(g, body, Transition(body.fields, start, input, at),
                       PartsSpan(ParseFields(g, body.fields[start..], input, at, depth), level, t), input, at, depth, level, t)
  {
    var w := FieldWidth(body.fields[start]);
    hide ParseRoot, ParseFields, ParseField, ChildThenResume, ResumeSpan;
    assert body.fields[start..][1..] == body.fields[start + 1..];
    FixedFieldSpan(g, body.fields[start..], input, at, depth, level, t);
    TransitionShift(body.fields, start, input, at);
    StepShift(g, body, w, Transition(body.fields, start, input, at), Transition(body.fields, start + 1, input[w..], at + w),
              PartsSpan(ParseFields(g, body.fields[start + 1..], input[w..], at + w, depth), level, t), input, at, depth, level, t);
  }

  lemma ObjectResumeAgrees(g: Grammar, body: Body, continuation: Continuation, input: seq<byte>, at: nat, depth: nat, level: nat, t: Trace)
    requires body.ObjectBody? && continuation.Counter? && at + |input| <= USIZE_MAX
    ensures StepAgrees(g, body, RecursiveResume(body, input, at, continuation),
                       ResumeSpan(g, body, continuation, input, at, depth, level, t), input, at, depth, level, t)
  {
    var index := if continuation.n == 0 then None else RecursivePosition(body.fields, continuation.n - 1, 0);
    if index.Some? {
      TransitionAgrees(g, body, index.value + 1, input, at, depth, level, t);
    }
  }

  // ----- demand bodies -----

  lemma DemandStartAgrees(g: Grammar, body: Body, input: seq<byte>, at: nat, depth: nat, level: nat, t: Trace)
    requires body.DemandBody? && at <= USIZE_MAX
    ensures StepAgrees(g, body, RecursiveStart(body, input, at), BodySpan(ParseBody(g, body, input, at, depth), level, t), input, at, depth, level, t)
  {
    var w := body.controller.width;
    if |input| >= w {
      var extent := DecodeUnsigned(body.controller.endian, input[..w]);
      EncodeDecode(body.controller.endian, input[..w]);
      PackedRoundTrip(body, extent, at);
      LeftAgrees(g, body, AfterLeft(body, extent, at), extent, input, at, depth, level, t);
    }
  }

  /** The continuation shows the length and the body start it was packed from. */
  ghost predicate ReadsBack(body: Body, continuation: Continuation, extent: nat, start: nat) {
    && body.DemandBody? && Fits(body, continuation, start)
    && ResumeTag(continuation.bytes) == 1
    && PackedController(body, continuation.bytes) == extent
    && (body.align.Some? ==> PackedBodyStart(body, continuation.bytes) == start)
  }

  /** After the controller: the left child, then the packed continuation. */
  lemma LeftAgrees(g: Grammar, body: Body, continuation: Continuation, extent: nat, input: seq<byte>, at: nat, depth: nat, level: nat, t: Trace)
    requires body.DemandBody? && |input| >= body.controller.width
    requires extent == DecodeUnsigned(body.controller.endian, input[..body.controller.width])
    requires ReadsBack(body, continuation, extent, at)
    ensures BodySpan(ParseDemand(g, body, input, at, depth), level, t) ==
              ChildThenResume(g, body, continuation, body.controller.width, input, at, depth, level, t)
  {
    hide ParseRoot, ParseDemandTail, ResumeSpan, PackedController, PackedBodyStart;
    var w := body.controller.width;
    match ParseRoot(g, input[w..], at + w, depth)
    case NoParse =>
    case Parsed(left, n) =>
      LeftResume(g, body, continuation, extent, at, w + n, input[w + n..], at + w + n, depth, level, ChildTrace(left, level, t));
  }

  lemma LeftResume(g: Grammar, body: Body, continuation: Continuation, extent: nat, start: nat, behind: nat,
                   rest: seq<byte>, at: nat, depth: nat, level: nat, t: Trace)
    requires ReadsBack(body, continuation, extent, start) && at == start + behind
    ensures ResumeSpan(g, body, continuation, rest, at, depth, level, t) ==
              TailSpan(ParseDemandTail(g, body, extent, behind, rest, at, depth), level, t)
  {
    BehindIrrelevant(g, body, extent, Behind(body, continuation, at), behind, rest, at, depth);
  }

  /** Without alignment the bytes behind the cursor do not matter. */
  lemma BehindIrrelevant(g: Grammar, body: Body, extent: nat, a: nat, b: nat, input: seq<byte>, at: nat, depth: nat)
    requires body.DemandBody? && (a == b || body.align.None?)
    ensures ParseDemandTail(g, body, extent, a, input, at, depth) == ParseDemandTail(g, body, extent, b, input, at, depth)
  {
  }

  lemma DemandResumeAgrees(g: Grammar, body: Body, continuation: Continuation, input: seq<byte>, at: nat, depth: nat, level: nat, t: Trace)
    requires body.DemandBody? && Fits(body, continuation, at) && at + |input| <= USIZE_MAX
    ensures StepAgrees(g, body, RecursiveResume(body, input, at, continuation),
                       ResumeSpan(g, body, continuation, input, at, depth, level, t), input, at, depth, level, t)
  {
    hide ParseRoot;
    if ResumeTag(continuation.bytes) == 1 {
      var extent := PackedController(body, continuation.bytes);
      var behind := Behind(body, continuation, at);
      PositionAgrees(body, continuation, input, at);
      var step := ResumeDemand(body, input, at, continuation.bytes);
      if step.Ok? {
        assert ResumeTag(AfterRight(body).bytes) == 2;
        if body.align.Some? {
          assert AfterRight(body).bytes[1 + body.controller.width..] == Zeros(USIZE_BYTES);
          ZerosValue(USIZE_BYTES);
        }
      }
    }
  }

  lemma {:induction false} ZerosValue(n: nat)
    ensures LittleValue(Zeros(n)) == 0
  {
    if n > 0 {
      ZerosValue(n - 1);
      assert Zeros(n)[1..] == Zeros(n - 1);
    }
  }

  /** Absolute placement on resumption and relative placement of the reference reading
      fail together on this input or give the same advance. */
  lemma PositionAgrees(body: Body, continuation: Continuation, input: seq<byte>, at: nat)
    requires body.DemandBody? && Fits(body, continuation, at) && at + |input| <= USIZE_MAX
    ensures var extent := PackedController(body, continuation.bytes);
            var behind := Behind(body, continuation, at);
            var relative := ScalarPosition(behind + extent, body.pad, body.align);
            match ResumeDemand(body, input, at, continuation.bytes)
            case Err(_) => extent > |input| || relative.None? || relative.value - behind + body.scalar.width > |input|
            case Ok(step) =>
              && extent <= |input| && relative.Some?
              && step == Step.Child(relative.value - behind + body.scalar.width, AfterRight(body))
              && step.advance <= |input|
  {
  }

  // ----- any body -----

  /** Starting a body agrees with reading it. */
  lemma StartAgrees(g: Grammar, body: Body, input: seq<byte>, at: nat, depth: nat, level: nat, t: Trace)
    requires IsRecursive(body) && at + |input| <= USIZE_MAX
    ensures StepAgrees(g, body, RecursiveStart(body, input, at), BodySpan(ParseBody(g, body, input, at, depth), level, t), input, at, depth, level, t)
  {
    match body
    case ArrayBody(_) => ArrayStartAgrees(g, body, input, at, depth, level, t);
    case ObjectBody(fields) =>
      assert fields[0..] == fields;
      TransitionAgrees(g, body, 0, input, at, depth, level, t);
    case DemandBody(_, _, _, _) => DemandStartAgrees(g, body, input, at, depth, level, t);
  }

  /** Resuming a body agrees with what remained of it. */
  lemma ResumeAgrees(g: Grammar, body: Body, continuation: Continuation, input: seq<byte>, at: nat, depth: nat, level: nat, t: Trace)
    requires Fits(body, continuation, at) && at + |input| <= USIZE_MAX
    ensures StepAgrees(g, body, RecursiveResume(body, input, at, continuation),
                       ResumeSpan(g, body, continuation, input, at, depth, level, t), input, at, depth, level, t)
  {
    match body
    case ArrayBody(_) => ArrayResumeAgrees(g, body, continuation, input, at, depth, level, t);
    case ObjectBody(_) => ObjectResumeAgrees(g, body, continuation, input, at, depth, level, t);
    case DemandBody(_, _, _, _) => DemandResumeAgrees(g, body, continuation, input, at, depth, level, t);
  }
}
